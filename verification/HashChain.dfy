/** The hash-chain index of the HC compressor and its match search (prefix mode).

    A position `p` of `buf` has index `p + dictLimit`.  The hash table holds the
    index of the latest position of each hash; the chain table, 65536 entries
    reused round-robin, holds the distance from a position to the previous one
    with the same hash, saturated at 65535.
 */
module HashChain {
  import opened BlockFormat
  import opened SourceParse
  import opened MatchCount

  type U16 = n: nat | n <= 65535

  const HASH_SIZE: nat := 0x8000
  const CHAIN_SIZE: nat := 0x1_0000

  function Read32(buf: seq<byte>, p: nat): nat
    requires p + 4 <= |buf|
  {
    buf[p] as nat + 256 * (buf[p + 1] as nat + 256 * (buf[p + 2] as nat + 256 * buf[p + 3] as nat))
  }

  /** Multiplicative hash of four bytes: the top 15 bits of a 32-bit product. */
  function HashPtr(buf: seq<byte>, p: nat): (h: nat)
    requires p + 4 <= |buf|
    ensures h < HASH_SIZE
  {
    ((Read32(buf, p) * 2654435761) % 0x1_0000_0000) / 0x2_0000
  }

  /** All positions before `p` have four bytes to hash. */
  predicate Hashable(buf: seq<byte>, p: nat) {
    p == 0 || p + 3 <= |buf|
  }

  /** The latest position before `p` whose hash is `h`, or -1. */
  function LatestBefore(buf: seq<byte>, p: nat, h: nat): (q: int)
    requires Hashable(buf, p)
    ensures -1 <= q < p
    ensures 0 <= q ==> HashPtr(buf, q) == h
  {
    if p == 0 then -1
    else if HashPtr(buf, p - 1) == h then p - 1
    else LatestBefore(buf, p - 1, h)
  }

  /** Distance stored for `p`: to the previous position of its hash, at most 65535. */
  function ChainDelta(buf: seq<byte>, p: nat): (d: nat)
    requires p + 4 <= |buf|
    ensures 1 <= d <= DISTANCE_MAX
  {
    var q := LatestBefore(buf, p, HashPtr(buf, p));
    if 0 <= q && p - q <= DISTANCE_MAX then p - q else DISTANCE_MAX
  }

  /** The scan that the chain walk has to agree with: every position from `ip - 1`
      down to `j`, keeping the first longest match that beats `longest`. */
  function NaiveSearch(buf: seq<byte>, ip: nat, j: nat, limit: nat, longest: nat): (r: (nat, nat))
    requires j <= ip <= limit <= |buf|
    ensures longest <= r.0
    decreases ip - j
  {
    if j == ip then (longest, 0)
    else
      var (l, p) := NaiveSearch(buf, ip, j + 1, limit, longest);
      var c := CommonLength(buf, ip, j, limit);
      if c > l then (c, j) else (l, p)
  }

  /** How many positions in [low, p) have hash `h`: the chain's length. */
  function CandidateCount(buf: seq<byte>, low: nat, p: nat, h: nat): nat
    requires Hashable(buf, p)
  {
    if p <= low then 0
    else CandidateCount(buf, low, p - 1, h) + if HashPtr(buf, p - 1) == h then 1 else 0
  }

  /** The chain entry used by position `p`. */
  function Slot(p: nat, dictLimit: nat): nat {
    (p + dictLimit) % CHAIN_SIZE
  }

  lemma DistinctSlots(p: nat, q: nat, dictLimit: nat)
    requires p < q < p + CHAIN_SIZE
    ensures Slot(p, dictLimit) != Slot(q, dictLimit)
  {
  }

  // ----- Comparing a candidate -----

  /** A match at `s` of the bytes at `r` starts as early as it may. */
  predicate StartsEarly(buf: seq<byte>, s: int, r: int, low: nat) {
    s <= low || r <= 0 || (r < s <= |buf| && buf[s - 1] != buf[r - 1])
  }

  lemma NotBefore(buf: seq<byte>, s: nat, r: int)
    ensures StartsEarly(buf, s, r, s)
  {
  }

  /** Extends a match backwards, not before `iMin` nor before the buffer. */
  method CountBack(buf: seq<byte>, ip: nat, m: nat, iMin: nat) returns (back: nat)
    requires m < ip <= |buf| && iMin <= ip
    ensures back <= ip - iMin && back <= m
    ensures buf[ip - back..ip] == buf[m - back..m] && StartsEarly(buf, ip - back, m - back, iMin)
  {
    back := 0;
    while back < ip - iMin && back < m && buf[ip - back - 1] == buf[m - back - 1]
      invariant back <= ip - iMin && back <= m
      invariant buf[ip - back..ip] == buf[m - back..m]
    {
      OneBefore(buf, ip - back, ip);
      OneBefore(buf, m - back, m);
      back := back + 1;
    }
  }

  lemma OneBefore(buf: seq<byte>, lo: nat, hi: nat)
    requires 1 <= lo <= hi <= |buf|
    ensures buf[lo - 1..hi] == [buf[lo - 1]] + buf[lo..hi]
  {
  }

  lemma JoinRepeats(buf: seq<byte>, s: nat, r: nat, a: nat, b: nat)
    requires s + a + b <= |buf| && r + a + b <= |buf|
    requires buf[s..s + a] == buf[r..r + a] && Repeats(buf, s + a, r + a, b)
    ensures Repeats(buf, s, r, a + b)
  {
    RepeatsIsEquality(buf, s + a, r + a, b);
    assert buf[s..s + (a + b)] == buf[s..s + a] + buf[s + a..s + a + b];
    assert buf[r..r + (a + b)] == buf[r..r + a] + buf[r + a..r + a + b];
    RepeatsIsEquality(buf, s, r, a + b);
  }

  /** Equal four bytes, and only those, read as equal words. */
  lemma Read32Injective(buf: seq<byte>, p: nat, q: nat)
    requires p + 4 <= |buf| && q + 4 <= |buf|
    ensures Read32(buf, p) == Read32(buf, q) <==> buf[p..p + 4] == buf[q..q + 4]
  {
    var x, y := buf[p..p + 4], buf[q..q + 4];
    FourBytes(buf, p);
    FourBytes(buf, q);
    DigitUnique(x[2] as nat, x[3] as nat, y[2] as nat, y[3] as nat);
    DigitUnique(x[1] as nat, x[2] as nat + 256 * x[3] as nat, y[1] as nat, y[2] as nat + 256 * y[3] as nat);
    DigitUnique(x[0] as nat, x[1] as nat + 256 * (x[2] as nat + 256 * x[3] as nat),
                y[0] as nat, y[1] as nat + 256 * (y[2] as nat + 256 * y[3] as nat));
  }

  lemma FourBytes(buf: seq<byte>, p: nat)
    requires p + 4 <= |buf|
    ensures buf[p..p + 4] == [buf[p], buf[p + 1], buf[p + 2], buf[p + 3]]
  {
  }

  lemma DigitUnique(a: nat, x: nat, a': nat, x': nat)
    requires a < 256 && a' < 256
    ensures a + 256 * x == a' + 256 * x' <==> a == a' && x == x'
  {
  }

  predicate SamePair(buf: seq<byte>, p: nat, q: nat)
    requires p + 2 <= |buf| && q + 2 <= |buf|
  {
    buf[p] == buf[q] && buf[p + 1] == buf[q + 1]
  }

  /** A candidate that beats `longest` passes both quick tests. */
  lemma QuickTests(buf: seq<byte>, ip: nat, m: nat, iHigh: nat, longest: nat)
    requires m < ip && ip + MINMATCH <= iHigh < |buf|
    requires 3 <= longest < CommonLength(buf, ip, m, iHigh)
    ensures SamePair(buf, ip + longest - 1, m + longest - 1)
    ensures Read32(buf, m) == Read32(buf, ip)
  {
    var c := CommonLength(buf, ip, m, iHigh);
    CommonLengthIsLongest(buf, ip, m, iHigh, c);
    RepeatsIsEquality(buf, ip, m, c);
    var x, y := buf[ip..ip + c], buf[m..m + c];
    assert x[longest - 1] == y[longest - 1] && x[longest] == y[longest];
    assert buf[ip..ip + 4] == x[..4] && buf[m..m + 4] == y[..4];
    Read32Injective(buf, m, ip);
  }

  /** A match of `len` bytes at `s`, around `ip`. */
  predicate Around(buf: seq<byte>, ip: nat, low: nat, limit: nat, s: nat, r: nat, len: nat) {
    low <= s <= ip && ip + MINMATCH <= s + len && IsMatch(buf, s, r, len, limit)
  }

  /** No match around `ip` that refers to position `from` or later there is longer. */
  ghost predicate NoWiderFrom(buf: seq<byte>, ip: nat, low: nat, limit: nat, longest: nat, from: int) {
    forall s: nat, r: nat, len: nat :: Around(buf, ip, low, limit, s, r, len) && from <= r + (ip - s) ==> len <= longest
  }

  /** Nor one at the distance of `m`. */
  ghost predicate NoWiderAt(buf: seq<byte>, ip: nat, low: nat, limit: nat, longest: nat, m: nat) {
    forall s: nat, r: nat, len: nat :: Around(buf, ip, low, limit, s, r, len) && r + (ip - s) == m ==> len <= longest
  }

  ghost predicate NoWider(buf: seq<byte>, ip: nat, low: nat, limit: nat, longest: nat) {
    NoWiderFrom(buf, ip, low, limit, longest, 0)
  }

  /** A match around `ip` goes through the place of its candidate. */
  lemma AroundParts(buf: seq<byte>, ip: nat, low: nat, limit: nat, s: nat, r: nat, len: nat)
    requires Around(buf, ip, low, limit, s, r, len)
    ensures var m := r + (ip - s);
            m < ip && WindowStart(ip) <= m && s + len <= limit <= |buf| && SameWord(buf, m, ip)
            && s + len - ip <= CommonLength(buf, ip, m, limit)
  {
    hide CommonLength, Repeats;
    var m := r + (ip - s);
    SubMatch(buf, s, r, len, limit, ip - s, s + len - ip);
    CommonLengthIsLongest(buf, ip, m, limit, s + len - ip);
    SameWordIsMatch(buf, ip, m, limit);
  }

  /** Two equal bytes inside a match. */
  lemma AroundByte(buf: seq<byte>, ip: nat, low: nat, limit: nat, s: nat, r: nat, len: nat, k: nat)
    requires Around(buf, ip, low, limit, s, r, len) && k < len
    ensures s + len <= |buf| && r < s && buf[s + k] == buf[r + k]
  {
    RepeatsIsEquality(buf, s, r, len);
    assert buf[s..s + len][k] == buf[r..r + len][k];
  }

  /** No match around `ip` at the distance of `m` is wider than what is measured there. */
  lemma MeasuredIsWidest(buf: seq<byte>, ip: nat, m: nat, low: nat, limit: nat, back: nat, s: nat, r: nat, len: nat)
    requires Around(buf, ip, low, limit, s, r, len) && m == r + (ip - s) && back <= m && low + back <= ip < |buf| && m < ip <= limit <= |buf|
    requires StartsEarly(buf, ip - back, m - back, low)
    ensures len <= back + CommonLength(buf, ip, m, limit)
  {
    hide CommonLength, IsMatch;
    AroundParts(buf, ip, low, limit, s, r, len);
    if s < ip - back {
      AroundByte(buf, ip, low, limit, s, r, len, ip - back - 1 - s);
      assert false;
    }
  }

  /** A candidate with a wider match passes both quick tests. */
  lemma WiderPasses(buf: seq<byte>, ip: nat, m: nat, low: nat, limit: nat, longest: nat, s: nat, r: nat, len: nat)
    requires Around(buf, ip, low, limit, s, r, len) && m == r + (ip - s) && longest < len
    requires ip - low < longest && low <= ip && limit <= |buf|
    ensures low + longest < |buf| && ip - low <= m + longest - 1 && m - (ip - low) + longest < |buf|
    ensures SamePair(buf, low + longest - 1, m - (ip - low) + longest - 1) && Read32(buf, m) == Read32(buf, ip)
  {
    hide CommonLength, Read32, HashPtr;
    AroundParts(buf, ip, low, limit, s, r, len);
    AroundByte(buf, ip, low, limit, s, r, len, low + longest - 1 - s);
    AroundByte(buf, ip, low, limit, s, r, len, low + longest - s);
    SameWordHash(buf, m, ip);
  }

  /** Measures the match around a candidate whose first four bytes agree. */
  method Measure(buf: seq<byte>, ip: nat, m: nat, iLow: nat, iHigh: nat) returns (len: nat, back: nat)
    requires m < ip && iLow <= ip && ip + MINMATCH <= iHigh <= |buf|
    requires Read32(buf, m) == Read32(buf, ip)
    ensures back <= ip - iLow && back <= m
    ensures len == back + CommonLength(buf, ip, m, iHigh) && back + MINMATCH <= len
    ensures ip - back + len <= iHigh && Repeats(buf, ip - back, m - back, len)
    ensures iHigh + LASTLITERALS == |buf| ==> CannotGrow(buf, ip - m, ip - back + len)
    ensures StartsEarly(buf, ip - back, m - back, iLow)
  {
    hide Read32, CannotGrow, CommonLength, Repeats, StartsEarly;
    if ip == iLow { NotBefore(buf, ip, m); }
    if iHigh + LASTLITERALS == |buf| { CommonCannotGrow(buf, ip, m, iHigh); }
    Read32Injective(buf, m, ip);
    SkipEqual(buf, ip, m, iHigh, MINMATCH);
    back := 0;
    if ip != iLow { back := CountBack(buf, ip, m, iLow); }
    len := Count(buf, ip + MINMATCH, m + MINMATCH, iHigh);
    len := MINMATCH + len;
    CommonLengthIsLongest(buf, ip, m, iHigh, len);
    JoinRepeats(buf, ip - back, m - back, back, len);
    len := len + back;
  }

  /** Compares the candidate `m` with `ip`: the length of the widest match around
      them, or 0 when a quick test shows that it cannot beat `longest`. */
  method Compare(buf: seq<byte>, ip: nat, m: nat, iLow: nat, iHigh: nat, longest: nat)
    returns (len: nat, back: nat)
    requires m < ip && ip - m <= DISTANCE_MAX && iLow <= ip && ip + MINMATCH <= iHigh < |buf|
    requires ip - iLow < longest && iLow + longest < |buf|
    ensures back <= ip - iLow && back <= m
    ensures len != 0 ==> back + MINMATCH <= len && IsMatch(buf, ip - back, m - back, len, iHigh)
    ensures len != 0 && iHigh + LASTLITERALS == |buf| ==> CannotGrow(buf, ip - m, ip - back + len)
    ensures len != 0 ==> StartsEarly(buf, ip - back, m - back, iLow)
    ensures NoWiderAt(buf, ip, iLow, iHigh, if longest < len then len else longest, m)
    ensures iLow == ip && 3 <= longest < CommonLength(buf, ip, m, iHigh) ==> len == CommonLength(buf, ip, m, iHigh)
    ensures iLow == ip ==> back == 0 && len <= CommonLength(buf, ip, m, iHigh)
  {
    hide StartsEarly, Around, IsMatch, CannotGrow, CommonLength, Read32;
    var lookBack := ip - iLow;
    ghost var measured := false;
    len, back := 0, 0;
    if iLow == ip && 3 <= longest < CommonLength(buf, ip, m, iHigh) {
      QuickTests(buf, ip, m, iHigh, longest);
    }
    if SamePair(buf, iLow + longest - 1, m - lookBack + longest - 1) {
      if Read32(buf, m) == Read32(buf, ip) {
        len, back := Measure(buf, ip, m, iLow, iHigh);
        measured := true;
        MeasuredIsMatch(buf, ip, m, iHigh, len, back);
      }
    }
    forall s: nat, r: nat, l: nat | Around(buf, ip, iLow, iHigh, s, r, l) && r + (ip - s) == m && longest < l ensures l <= len {
      WiderPasses(buf, ip, m, iLow, iHigh, longest, s, r, l);
      if measured { MeasuredIsWidest(buf, ip, m, iLow, iHigh, back, s, r, l); }
    }
  }

  lemma MeasuredIsMatch(buf: seq<byte>, ip: nat, m: nat, limit: nat, len: nat, back: nat)
    requires m < ip && ip - m <= DISTANCE_MAX && back <= m && ip - back + len <= limit <= |buf| && Repeats(buf, ip - back, m - back, len)
    ensures IsMatch(buf, ip - back, m - back, len, limit)
  {
  }


  // ----- Runs of one byte -----

  predicate Run(buf: seq<byte>, lo: nat, hi: nat, b: byte)
    requires hi <= |buf|
  {
    forall i :: lo <= i < hi ==> buf[i] == b
  }

  method CountPattern(buf: seq<byte>, start: nat, end: nat, b: byte) returns (n: nat)
    requires start <= end <= |buf|
    ensures start + n <= end && Run(buf, start, start + n, b)
    ensures start + n < end ==> buf[start + n] != b
  {
    var ip := start;
    var stride := [b, b, b, b, b, b, b, b];
    while ip + 7 < end
      invariant start <= ip <= end && Run(buf, start, ip, b)
    {
      if buf[ip..ip + 8] != stride {
        var c := CommonBytes(buf[ip..ip + 8], stride);
        assert forall i :: ip <= i < ip + c ==> buf[i] == buf[ip..ip + 8][..c][i - ip];
        return ip + c - start;
      }
      assert forall i :: ip <= i < ip + 8 ==> buf[i] == buf[ip..ip + 8][i - ip];
      ip := ip + 8;
    }
    while ip < end && buf[ip] == b
      invariant start <= ip <= end && Run(buf, start, ip, b)
    {
      ip := ip + 1;
    }
    n := ip - start;
  }

  method ReverseCountPattern(buf: seq<byte>, start: nat, iLow: nat, b: byte) returns (n: nat)
    requires iLow <= start <= |buf|
    ensures iLow + n <= start && Run(buf, start - n, start, b)
    ensures iLow < start - n ==> buf[start - n - 1] != b
  {
    var ip := start;
    while ip >= iLow + 4 && buf[ip - 4] == b && buf[ip - 3] == b && buf[ip - 2] == b && buf[ip - 1] == b
      invariant iLow <= ip <= start && Run(buf, ip, start, b)
    {
      ip := ip - 4;
    }
    while ip > iLow && buf[ip - 1] == b
      invariant iLow <= ip <= start && Run(buf, ip, start, b)
    {
      ip := ip - 1;
    }
    n := start - ip;
  }

  lemma {:induction false} RunsRepeat(buf: seq<byte>, s: nat, r: nat, len: nat, b: byte)
    requires s + len <= |buf| && r + len <= |buf|
    requires Run(buf, s, s + len, b) && Run(buf, r, r + len, b)
    ensures Repeats(buf, s, r, len)
  {
    if len != 0 {
      RunsRepeat(buf, s, r, len - 1, b);
    }
  }

  lemma FourIsRun(buf: seq<byte>, m: nat, b: byte)
    requires m + 4 <= |buf| && buf[m] == b && buf[m + 1] == b && buf[m + 2] == b && buf[m + 3] == b
    ensures Run(buf, m, m + MINMATCH, b)
  {
  }

  /** How far the run of `b` around `m`, where it has four bytes, goes on; not below `lowest`. */
  method RunAround(buf: seq<byte>, m: nat, lowest: nat, iHigh: nat, b: byte) returns (forward: nat, backward: nat)
    requires lowest <= m && m + MINMATCH <= iHigh <= |buf| && Run(buf, m, m + MINMATCH, b)
    ensures MINMATCH <= forward && m + forward <= iHigh && lowest + backward <= m
    ensures Run(buf, m - backward, m + forward, b) && (m + forward < iHigh ==> buf[m + forward] != b)
  {
    forward := CountPattern(buf, m + 4, iHigh, b);
    forward := forward + 4;
    backward := ReverseCountPattern(buf, m, 0, b);
    if m - backward < lowest { backward := m - lowest; }
  }

  lemma RunWord(buf: seq<byte>, p: nat, q: nat, b: byte)
    requires p + MINMATCH <= |buf| && q + MINMATCH <= |buf| && Run(buf, p, p + MINMATCH, b) && Run(buf, q, q + MINMATCH, b)
    ensures SameWord(buf, p, q)
  {
  }

  /** The longest match between two runs is as long as it may be, unless both end together. */
  lemma RunCannotGrow(buf: seq<byte>, ip: nat, iHigh: nat, srcRun: nat, r: nat, segment: nat, maxML: nat)
    requires r < ip < |buf| && iHigh + LASTLITERALS == |buf| && r + segment <= iHigh
    requires RunAt(buf, ip, iHigh, srcRun) && Run(buf, r, r + segment, buf[ip]) && (r + segment < iHigh ==> buf[r + segment] != buf[ip])
    requires maxML == (if segment < srcRun then segment else srcRun) && segment != srcRun
    ensures CannotGrow(buf, ip - r, ip + maxML)
  {
    if segment < srcRun {
      assert buf[ip + segment] == buf[ip] && (ip + segment) - (ip - r) == r + segment;
    } else if ip + srcRun < iHigh {
      assert buf[r + srcRun] == buf[ip] && (ip + srcRun) - (ip - r) == r + srcRun;
    }
  }

  /** `ip` starts a run of at least four times the same byte. */
  predicate RunAt(buf: seq<byte>, ip: nat, iHigh: nat, srcRun: nat)
    requires ip < |buf|
  {
    && MINMATCH <= srcRun && ip + srcRun <= iHigh <= |buf| && Run(buf, ip, ip + srcRun, buf[ip])
    && (ip + srcRun < iHigh ==> buf[ip + srcRun] != buf[ip])
  }

  datatype RepeatState = Untested | NotRepeated | Confirmed

  /** What the search has found so far: nothing better than it was given, or a
      match around `ip`, as long as it may be on both sides. */
  ghost predicate Found(buf: seq<byte>, ip: nat, iLow: nat, iHigh: nat, longest0: nat,
                        longest: nat, matchpos: nat, startpos: nat)
  {
    && longest0 <= longest
    && (longest0 < longest ==>
          && iLow <= startpos <= ip && ip + MINMATCH <= startpos + longest
          && IsMatch(buf, startpos, matchpos, longest, iHigh)
          && (iHigh + LASTLITERALS == |buf| ==> CannotGrow(buf, startpos - matchpos, startpos + longest))
          && StartsEarly(buf, startpos, matchpos, iLow))
  }

  lemma RunLength(buf: seq<byte>, ip: nat, iHigh: nat, srcRun: nat)
    requires ip < |buf| && RunAt(buf, ip, iHigh, srcRun)
    ensures MINMATCH <= srcRun && ip + srcRun <= iHigh
  {
  }

  lemma JumpTarget(buf: seq<byte>, ip: nat, iHigh: nat, srcRun: nat, lo: nat, hi: nat, next: nat)
    requires ip < |buf| && RunAt(buf, ip, iHigh, srcRun) && lo <= next && next + srcRun <= hi <= |buf| && Run(buf, lo, hi, buf[ip])
    ensures SameWord(buf, next, ip)
  {
    RunWord(buf, next, ip, buf[ip]);
  }

  lemma FoundIsNoLess(buf: seq<byte>, ip: nat, iLow: nat, iHigh: nat, longest0: nat, longest: nat, matchpos: nat, startpos: nat)
    requires Found(buf, ip, iLow, iHigh, longest0, longest, matchpos, startpos)
    ensures longest0 <= longest
  {
  }

  lemma RunIsFound(buf: seq<byte>, ip: nat, iHigh: nat, longest0: nat, srcRun: nat, r: nat, segment: nat, maxML: nat)
    requires r < ip < |buf| && ip - r <= DISTANCE_MAX && r + segment <= iHigh && longest0 <= maxML && MINMATCH <= segment
    requires RunAt(buf, ip, iHigh, srcRun) && Run(buf, r, r + segment, buf[ip]) && (r + segment < iHigh ==> buf[r + segment] != buf[ip])
    requires maxML == (if segment < srcRun then segment else srcRun) && segment != srcRun
    ensures Found(buf, ip, ip, iHigh, longest0, maxML, r, ip)
  {
    hide CannotGrow, Repeats;
    RunsRepeat(buf, ip, r, maxML, buf[ip]);
    if iHigh + LASTLITERALS == |buf| { RunCannotGrow(buf, ip, iHigh, srcRun, r, segment, maxML); }
  }

  lemma NothingFound(buf: seq<byte>, ip: nat, iLow: nat, iHigh: nat, longest0: nat)
    ensures Found(buf, ip, iLow, iHigh, longest0, longest0, 0, 0)
  {
  }

  /** Compares one candidate and keeps the wider match. */
  method TryCandidate(buf: seq<byte>, ip: nat, m: nat, iLow: nat, iHigh: nat, ghost longest0: nat,
                      longest: nat, matchpos: nat, startpos: nat)
    returns (matchLength: nat, longest': nat, matchpos': nat, startpos': nat)
    requires m < ip && ip - m <= DISTANCE_MAX && iLow <= ip && ip + MINMATCH <= iHigh < |buf|
    requires ip - iLow < longest0 && iLow + longest0 < |buf|
    requires Found(buf, ip, iLow, iHigh, longest0, longest, matchpos, startpos)
    ensures Found(buf, ip, iLow, iHigh, longest0, longest', matchpos', startpos')
    ensures iLow == ip && 3 <= longest ==>
      (longest', matchpos') ==
        if longest < CommonLength(buf, ip, m, iHigh) then (CommonLength(buf, ip, m, iHigh), m) else (longest, matchpos)
    ensures longest <= longest' && (matchLength == 0 || MINMATCH <= matchLength <= longest')
    ensures NoWiderAt(buf, ip, iLow, iHigh, longest', m)
  {
    hide CommonLength, NoWiderAt;
    longest', matchpos', startpos' := longest, matchpos, startpos;
    var back;
    matchLength, back := Compare(buf, ip, m, iLow, iHigh, longest);
    if matchLength > longest {
      longest', matchpos', startpos' := matchLength, m - back, ip - back;
    }
  }

  /** Is `ip` at the start of a run of one byte, and how long is the run? */
  method DetectRun(buf: seq<byte>, ip: nat, iHigh: nat) returns (repeat: RepeatState, srcRun: nat)
    requires ip + MINMATCH <= iHigh <= |buf|
    ensures repeat != Untested
    ensures repeat == Confirmed ==> RunAt(buf, ip, iHigh, srcRun)
  {
    var b := buf[ip];
    if buf[ip + 1] == b && buf[ip + 2] == b && buf[ip + 3] == b {
      srcRun := CountPattern(buf, ip + 4, iHigh, b);
      return Confirmed, srcRun + 4;
    }
    return NotRepeated, 0;
  }

  /** `longest` is the best length in the window, 3 standing for none, and `matchpos`
      the nearest place where it is reached. */
  ghost predicate IsLongestMatch(buf: seq<byte>, ip: nat, limit: nat, longest: nat, matchpos: nat)
    requires ip <= limit <= |buf|
  {
    BestFrom(buf, ip, WindowStart(ip), limit, MINMATCH - 1, longest, matchpos)
  }

  ghost predicate BestFrom(buf: seq<byte>, ip: nat, j: nat, limit: nat, floor: nat, longest: nat, matchpos: nat)
    requires ip <= limit <= |buf|
  {
    && floor <= longest
    && (forall p :: j <= p < ip ==> CommonLength(buf, ip, p, limit) <= longest)
    && (floor < longest ==>
          && j <= matchpos < ip && CommonLength(buf, ip, matchpos, limit) == longest
          && forall p :: matchpos < p < ip ==> CommonLength(buf, ip, p, limit) < longest)
  }

  /** The naive scan finds the nearest longest match. */
  lemma {:induction false} NaiveSearchIsLongest(buf: seq<byte>, ip: nat, j: nat, limit: nat, floor: nat)
    requires j <= ip <= limit <= |buf|
    ensures var (l, p) := NaiveSearch(buf, ip, j, limit, floor); BestFrom(buf, ip, j, limit, floor, l, p)
    decreases ip - j
  {
    if j < ip {
      NaiveSearchIsLongest(buf, ip, j + 1, limit, floor);
    }
  }

  // ----- The chain walk against the naive scan -----

  lemma {:induction false} NoneBetween(buf: seq<byte>, hi: nat, h: nat, p: nat)
    requires Hashable(buf, hi) && LatestBefore(buf, hi, h) < p < hi
    ensures HashPtr(buf, p) != h
  {
    if p < hi - 1 {
      NoneBetween(buf, hi - 1, h, p);
    }
  }

  lemma HashDiffers(buf: seq<byte>, ip: nat, p: nat, limit: nat)
    requires p < ip && ip + 4 <= limit <= |buf| && HashPtr(buf, p) != HashPtr(buf, ip)
    ensures CommonLength(buf, ip, p, limit) < 4
  {
    hide HashPtr, Read32;
    if 4 <= CommonLength(buf, ip, p, limit) {
      CommonLengthIsLongest(buf, ip, p, limit, 4);
      RepeatsIsEquality(buf, ip, p, 4);
      Read32Injective(buf, ip, p);
      HashOfWord(buf, ip, p);
    }
  }

  lemma HashOfWord(buf: seq<byte>, p: nat, q: nat)
    requires p + 4 <= |buf| && q + 4 <= |buf| && Read32(buf, p) == Read32(buf, q)
    ensures HashPtr(buf, p) == HashPtr(buf, q)
  {
    hide Read32;
  }

  /** Positions of another hash change neither the scan nor the count. */
  lemma {:induction false} SkipOthers(buf: seq<byte>, ip: nat, lo: nat, hi: nat, limit: nat, longest: nat, low: nat)
    requires low <= lo <= hi <= ip && ip + 4 <= limit <= |buf| && 3 <= longest
    requires forall p :: lo <= p < hi ==> HashPtr(buf, p) != HashPtr(buf, ip)
    ensures NaiveSearch(buf, ip, lo, limit, longest) == NaiveSearch(buf, ip, hi, limit, longest)
    ensures CandidateCount(buf, low, lo, HashPtr(buf, ip)) == CandidateCount(buf, low, hi, HashPtr(buf, ip))
    decreases hi - lo
  {
    hide HashPtr;
    if lo < hi {
      SkipOthers(buf, ip, lo + 1, hi, limit, longest, low);
      HashDiffers(buf, ip, lo, limit);
    }
  }

  /** The lowest position a match for `ip` may start from. */
  function WindowStart(ip: nat): nat {
    if ip <= DISTANCE_MAX then 0 else ip - DISTANCE_MAX
  }

  /** `next` is the next candidate (below the window when the chain has ended), all
      later positions have been scanned, and `attempts` suffice for the rest. */
  ghost predicate Walked(buf: seq<byte>, ip: nat, limit: nat, longest0: nat,
                         next: int, attempts: int, longest: nat, matchpos: nat)
    requires ip + 4 <= limit <= |buf|
  {
    var low := WindowStart(ip);
    if low <= next then
      && next < ip && HashPtr(buf, next) == HashPtr(buf, ip)
      && (longest, matchpos) == NaiveSearch(buf, ip, next + 1, limit, longest0)
      && CandidateCount(buf, low, next + 1, HashPtr(buf, ip)) <= attempts
    else
      (longest, matchpos) == NaiveSearch(buf, ip, low, limit, longest0)
  }

  /** From everything before `p` scanned to the previous position of the hash. */
  lemma WalkTo(buf: seq<byte>, ip: nat, limit: nat, longest0: nat, p: nat, next: int, attempts: int, longest: nat, matchpos: nat)
    requires WindowStart(ip) <= p <= ip && ip + 4 <= limit <= |buf| && 3 <= longest0
    requires (longest, matchpos) == NaiveSearch(buf, ip, p, limit, longest0)
    requires CandidateCount(buf, WindowStart(ip), p, HashPtr(buf, ip)) <= attempts
    requires var q := LatestBefore(buf, p, HashPtr(buf, ip));
             next == q || (q < WindowStart(ip) && next < WindowStart(ip))
    ensures Walked(buf, ip, limit, longest0, next, attempts, longest, matchpos)
  {
    hide HashPtr;
    var low := WindowStart(ip);
    var h := HashPtr(buf, ip);
    var lo := if low <= next then next + 1 else low;
    forall k | lo <= k < p ensures HashPtr(buf, k) != h {
      NoneBetween(buf, p, h, k);
    }
    SkipOthers(buf, ip, lo, p, limit, longest0, low);
  }

  lemma WalkStart(buf: seq<byte>, ip: nat, limit: nat, longest0: nat, next: int, attempts: int)
    requires ip + 4 <= limit <= |buf| && 3 <= longest0
    requires CandidateCount(buf, WindowStart(ip), ip, HashPtr(buf, ip)) <= attempts
    requires var q := LatestBefore(buf, ip, HashPtr(buf, ip)); if 0 <= q then next == q else next < 0
    ensures Walked(buf, ip, limit, longest0, next, attempts, longest0, 0)
  {
    hide HashPtr;
    WalkTo(buf, ip, limit, longest0, ip, next, attempts, longest0, 0);
  }

  lemma WalkEnd(buf: seq<byte>, ip: nat, limit: nat, longest0: nat, next: int, attempts: int, longest: nat, matchpos: nat)
    requires ip + 4 <= limit <= |buf|
    requires Walked(buf, ip, limit, longest0, next, attempts, longest, matchpos)
    requires next < WindowStart(ip) || attempts <= 0
    ensures (longest, matchpos) == NaiveSearch(buf, ip, WindowStart(ip), limit, longest0)
  {
    hide HashPtr;
  }

  /** One candidate compared, and its stored distance followed. */
  lemma WalkStep(buf: seq<byte>, ip: nat, limit: nat, longest0: nat, m: nat, attempts: int,
                 longest: nat, matchpos: nat, longest': nat, matchpos': nat)
    requires WindowStart(ip) <= m && ip + 4 <= limit <= |buf| && 3 <= longest0
    requires Walked(buf, ip, limit, longest0, m, attempts, longest, matchpos)
    requires var c := CommonLength(buf, ip, m, limit);
             (longest', matchpos') == if longest < c then (c, m) else (longest, matchpos)
    ensures Walked(buf, ip, limit, longest0, m - ChainDelta(buf, m), attempts - 1, longest', matchpos')
  {
    hide HashPtr, CommonLength;
    WalkTo(buf, ip, limit, longest0, m, m - ChainDelta(buf, m), attempts - 1, longest', matchpos');
  }

  // ----- What a search that finds nothing tells -----

  predicate SameWord(buf: seq<byte>, p: nat, q: nat) {
    p + MINMATCH <= |buf| && q + MINMATCH <= |buf| && buf[p..p + MINMATCH] == buf[q..q + MINMATCH]
  }

  /** The four bytes at `ip` stand nowhere between `lo` and the place `nearest` bytes back. */
  ghost predicate Unmatched(buf: seq<byte>, ip: nat, lo: nat, nearest: nat) {
    forall r: nat :: lo <= r < ip && r + nearest <= ip ==> !SameWord(buf, r, ip)
  }

  /** Nowhere in the window. */
  ghost predicate Matchless(buf: seq<byte>, ip: nat, nearest: nat) {
    Unmatched(buf, ip, WindowStart(ip), nearest)
  }

  /** Decoding speed favoured: matches of an offset below 8 are not compared. */
  function Nearest(favorDecSpeed: bool): nat {
    if favorDecSpeed then 8 else 1
  }

  /** `attempts` reach the end of the chain of `ip`. */
  predicate Exhaustive(buf: seq<byte>, ip: nat, attempts: int) {
    ip + MINMATCH <= |buf| && CandidateCount(buf, WindowStart(ip), ip, HashPtr(buf, ip)) <= attempts
  }

  /** Nothing is found yet: no later position matches, unless the candidate `next`
      does, and `attempts` suffice for the rest. */
  ghost predicate Seeking(buf: seq<byte>, ip: nat, nearest: nat, next: int, attempts: int)
    requires ip + 4 <= |buf|
  {
    var low := WindowStart(ip);
    if low <= next then
      && next < ip && HashPtr(buf, next) == HashPtr(buf, ip)
      && CandidateCount(buf, low, next + 1, HashPtr(buf, ip)) <= attempts
      && (Unmatched(buf, ip, next + 1, nearest) || (next + nearest <= ip && SameWord(buf, next, ip)))
    else
      Matchless(buf, ip, nearest)
  }

  lemma SameWordHash(buf: seq<byte>, p: nat, q: nat)
    requires SameWord(buf, p, q)
    ensures HashPtr(buf, p) == HashPtr(buf, q) && Read32(buf, p) == Read32(buf, q)
  {
    hide HashPtr, Read32;
    Read32Injective(buf, p, q);
    HashOfWord(buf, p, q);
  }

  lemma SameWordIsMatch(buf: seq<byte>, ip: nat, m: nat, limit: nat)
    requires m < ip && ip + MINMATCH <= limit <= |buf|
    ensures SameWord(buf, m, ip) <==> MINMATCH <= CommonLength(buf, ip, m, limit)
  {
    CommonLengthIsLongest(buf, ip, m, limit, MINMATCH);
    RepeatsIsEquality(buf, ip, m, MINMATCH);
  }

  lemma {:induction false} CountGrows(buf: seq<byte>, low: nat, p: nat, q: nat, h: nat)
    requires p <= q && Hashable(buf, q)
    ensures CandidateCount(buf, low, p, h) <= CandidateCount(buf, low, q, h)
    decreases q
  {
    if p < q {
      CountGrows(buf, low, p, q - 1, h);
    }
  }

  /** Nothing from `p` on: the search goes on with the previous position of the hash. */
  lemma SeekTo(buf: seq<byte>, ip: nat, nearest: nat, p: nat, next: int, attempts: int)
    requires WindowStart(ip) <= p <= ip && ip + 4 <= |buf| && Unmatched(buf, ip, p, nearest)
    requires CandidateCount(buf, WindowStart(ip), p, HashPtr(buf, ip)) <= attempts
    requires var q := LatestBefore(buf, p, HashPtr(buf, ip));
             next == q || (q < WindowStart(ip) && next < WindowStart(ip))
    ensures Seeking(buf, ip, nearest, next, attempts)
  {
    hide HashPtr, SameWord;
    var low, h := WindowStart(ip), HashPtr(buf, ip);
    var lo := if low <= next then next + 1 else low;
    forall r: nat | lo <= r < ip && r + nearest <= ip ensures !SameWord(buf, r, ip) {
      if r < p {
        NoneBetween(buf, p, h, r);
        if SameWord(buf, r, ip) { SameWordHash(buf, r, ip); }
      }
    }
    if low <= next { CountGrows(buf, low, next + 1, p, h); }
  }

  lemma SeekStart(buf: seq<byte>, ip: nat, nearest: nat, next: int, attempts: int)
    requires Exhaustive(buf, ip, attempts)
    requires var q := LatestBefore(buf, ip, HashPtr(buf, ip)); if 0 <= q then next == q else next < 0
    ensures Seeking(buf, ip, nearest, next, attempts)
  {
    hide HashPtr;
    SeekTo(buf, ip, nearest, ip, next, attempts);
  }

  /** The candidate `m` is no match: the chain is followed, or the search jumps to a match. */
  lemma SeekStep(buf: seq<byte>, ip: nat, nearest: nat, m: nat, attempts: int, next: int)
    requires WindowStart(ip) <= m && ip + 4 <= |buf| && Seeking(buf, ip, nearest, m, attempts)
    requires m + nearest <= ip ==> !SameWord(buf, m, ip)
    requires next == m - ChainDelta(buf, m) || (WindowStart(ip) <= next < m && SameWord(buf, next, ip))
    ensures Seeking(buf, ip, nearest, next, attempts - 1)
  {
    hide HashPtr, SameWord;
    var low := WindowStart(ip);
    assert CandidateCount(buf, low, m, HashPtr(buf, ip)) <= attempts - 1;
    if next == m - ChainDelta(buf, m) {
      SeekTo(buf, ip, nearest, m, next, attempts - 1);
    } else {
      SameWordHash(buf, next, ip);
      CountGrows(buf, low, next + 1, m, HashPtr(buf, ip));
    }
  }

  lemma SeekEnd(buf: seq<byte>, ip: nat, nearest: nat, next: int, attempts: int)
    requires ip + 4 <= |buf| && Seeking(buf, ip, nearest, next, attempts)
    requires next < WindowStart(ip) || attempts <= 0
    ensures Matchless(buf, ip, nearest)
  {
    hide HashPtr;
  }

  // ----- The widest match -----

  lemma StillNoWider(buf: seq<byte>, ip: nat, low: nat, limit: nat, longest: nat, longest': nat, m: nat)
    requires NoWiderAt(buf, ip, low, limit, longest, m) && longest <= longest'
    ensures NoWiderAt(buf, ip, low, limit, longest', m)
  {
    hide Around;
  }

  /** `next` is the next candidate (below the window when the chain has ended), no later one
      is wider, and `attempts` suffice for the rest. */
  ghost predicate Widening(buf: seq<byte>, ip: nat, low: nat, limit: nat, next: int, attempts: int, longest: nat)
    requires ip + 4 <= |buf|
  {
    if WindowStart(ip) <= next then
      && next < ip && HashPtr(buf, next) == HashPtr(buf, ip)
      && CandidateCount(buf, WindowStart(ip), next + 1, HashPtr(buf, ip)) <= attempts
      && NoWiderFrom(buf, ip, low, limit, longest, next + 1)
    else NoWider(buf, ip, low, limit, longest)
  }

  lemma WidenTo(buf: seq<byte>, ip: nat, low: nat, limit: nat, p: nat, next: int, attempts: int, longest: nat)
    requires WindowStart(ip) <= p <= ip && ip + 4 <= |buf| && NoWiderFrom(buf, ip, low, limit, longest, p)
    requires CandidateCount(buf, WindowStart(ip), p, HashPtr(buf, ip)) <= attempts
    requires var q := LatestBefore(buf, p, HashPtr(buf, ip));
             next == q || (q < WindowStart(ip) && next < WindowStart(ip))
    ensures Widening(buf, ip, low, limit, next, attempts, longest)
  {
    hide HashPtr, Around, SameWord, CommonLength;
    var lo := if WindowStart(ip) <= next then next + 1 else 0;
    forall s: nat, r: nat, len: nat | Around(buf, ip, low, limit, s, r, len) && lo <= r + (ip - s) ensures len <= longest {
      AroundParts(buf, ip, low, limit, s, r, len);
      AroundWithin(buf, ip, low, limit, s, r, len);
      var m := r + (ip - s);
      if m < p {
        NoneBetween(buf, p, HashPtr(buf, ip), m);
        SameWordHash(buf, m, ip);
        assert false;
      }
    }
    if WindowStart(ip) <= next { CountGrows(buf, WindowStart(ip), next + 1, p, HashPtr(buf, ip)); }
  }

  lemma AroundWithin(buf: seq<byte>, ip: nat, low: nat, limit: nat, s: nat, r: nat, len: nat)
    requires Around(buf, ip, low, limit, s, r, len)
    ensures s <= ip
  {
  }

  lemma WidenStart(buf: seq<byte>, ip: nat, low: nat, limit: nat, next: int, attempts: int, longest: nat)
    requires Exhaustive(buf, ip, attempts)
    requires var q := LatestBefore(buf, ip, HashPtr(buf, ip)); if 0 <= q then next == q else next < 0
    ensures Widening(buf, ip, low, limit, next, attempts, longest)
  {
    hide HashPtr, Around, SameWord;
    forall s: nat, r: nat, len: nat | Around(buf, ip, low, limit, s, r, len) ensures r + (ip - s) < ip {
      AroundParts(buf, ip, low, limit, s, r, len);
    }
    WidenTo(buf, ip, low, limit, ip, next, attempts, longest);
  }

  lemma WidenStep(buf: seq<byte>, ip: nat, low: nat, limit: nat, m: nat, attempts: int, longest: nat, longest': nat)
    requires WindowStart(ip) <= m && ip + 4 <= |buf| && Widening(buf, ip, low, limit, m, attempts, longest)
    requires longest <= longest' && NoWiderAt(buf, ip, low, limit, longest', m)
    ensures Widening(buf, ip, low, limit, m - ChainDelta(buf, m), attempts - 1, longest')
  {
    hide HashPtr, Around;
    assert CandidateCount(buf, WindowStart(ip), m, HashPtr(buf, ip)) <= attempts - 1;
    WidenTo(buf, ip, low, limit, m, m - ChainDelta(buf, m), attempts - 1, longest');
  }

  lemma WidenEnd(buf: seq<byte>, ip: nat, low: nat, limit: nat, next: int, attempts: int, longest: nat)
    requires ip + 4 <= |buf| && Widening(buf, ip, low, limit, next, attempts, longest)
    requires next < WindowStart(ip) || attempts <= 0
    ensures NoWider(buf, ip, low, limit, longest)
  {
    hide HashPtr;
  }

  // ----- A search, turn by turn -----

  /** The parameters of a call. */
  datatype Call = Call(ip: nat, low: nat, limit: nat, longest0: nat, attempts: int,
                       patternAnalysis: bool, chainSwap: bool, favorDecSpeed: bool)
  {
    /** Every candidate of the chain is compared. */
    predicate Straight() { !patternAnalysis && !chainSwap && !favorDecSpeed }
  }

  /** What may be claimed about the search: it equals the scan of the window, it finds the
      widest match, it finds a match if there is one. */
  ghost predicate Going(buf: seq<byte>, c: Call, next: int, attempts: int, longest: nat, matchpos: nat, stop: bool, chainPos: nat)
    requires c.ip + 4 <= c.limit <= |buf|
  {
    Exhaustive(buf, c.ip, c.attempts) ==>
      && (c.Straight() && c.low == c.ip && 3 <= c.longest0 ==>
            !stop && chainPos == 0 && 3 <= longest && Walked(buf, c.ip, c.limit, c.longest0, next, attempts, longest, matchpos))
      && (c.Straight() ==> !stop && chainPos == 0 && Widening(buf, c.ip, c.low, c.limit, next, attempts, longest))
      && (c.low == c.ip && c.longest0 == 3 && longest < MINMATCH ==>
            !stop && chainPos == 0 && 3 <= longest && Seeking(buf, c.ip, Nearest(c.favorDecSpeed), next, attempts))
  }

  /** One turn at the candidate `m`, after which the search goes on at `next`. */
  ghost predicate Turned(buf: seq<byte>, c: Call, m: nat, longest0: nat, matchpos0: nat, chainPos0: nat,
                         next: int, longest: nat, matchpos: nat, stop: bool, chainPos: nat)
    requires m < c.ip && c.ip + 4 <= c.limit <= |buf|
  {
    && longest0 <= longest && (!c.favorDecSpeed ==> NoWiderAt(buf, c.ip, c.low, c.limit, longest, m))
    && (!c.patternAnalysis && !c.chainSwap && chainPos0 == 0 ==> chainPos == 0 && !stop && next == m - ChainDelta(buf, m))
    && (!c.favorDecSpeed && !c.patternAnalysis && c.low == c.ip && 3 <= longest0 ==>
          var n := CommonLength(buf, c.ip, m, c.limit);
          (longest, matchpos) == if longest0 < n then (n, m) else (longest0, matchpos0))
    && (c.low == c.ip && 3 <= longest0 && longest < MINMATCH && chainPos0 == 0 ==>
          && chainPos == 0 && !stop && (m + Nearest(c.favorDecSpeed) <= c.ip ==> !SameWord(buf, m, c.ip))
          && (next == m - ChainDelta(buf, m) || (WindowStart(c.ip) <= next < m && SameWord(buf, next, c.ip))))
  }

  lemma GoStart(buf: seq<byte>, c: Call, next: int)
    requires c.ip + 4 <= c.limit <= |buf|
    requires var q := LatestBefore(buf, c.ip, HashPtr(buf, c.ip)); if 0 <= q then next == q else next < 0
    ensures Going(buf, c, next, c.attempts, c.longest0, 0, false, 0)
  {
    hide HashPtr, Walked, Widening, Seeking, CandidateCount;
    if Exhaustive(buf, c.ip, c.attempts) {
      if 3 <= c.longest0 { WalkStart(buf, c.ip, c.limit, c.longest0, next, c.attempts); }
      WidenStart(buf, c.ip, c.low, c.limit, next, c.attempts, c.longest0);
      SeekStart(buf, c.ip, Nearest(c.favorDecSpeed), next, c.attempts);
    }
  }

  lemma GoOn(buf: seq<byte>, c: Call, m: nat, attempts: int, longest0: nat, matchpos0: nat, stop0: bool, chainPos0: nat,
             next: int, longest: nat, matchpos: nat, stop: bool, chainPos: nat)
    requires WindowStart(c.ip) <= m < c.ip && c.ip + 4 <= c.limit <= |buf|
    requires Going(buf, c, m, attempts, longest0, matchpos0, stop0, chainPos0)
    requires Turned(buf, c, m, longest0, matchpos0, chainPos0, next, longest, matchpos, stop, chainPos)
    ensures Going(buf, c, next, attempts - 1, longest, matchpos, stop, chainPos)
  {
    hide HashPtr, Walked, Widening, Seeking, CandidateCount, CommonLength, NoWiderAt, SameWord, ChainDelta, WindowStart, Exhaustive;
    if Exhaustive(buf, c.ip, c.attempts) {
      if c.Straight() {
        if c.low == c.ip && 3 <= c.longest0 {
          WalkStep(buf, c.ip, c.limit, c.longest0, m, attempts, longest0, matchpos0, longest, matchpos);
        }
        WidenStep(buf, c.ip, c.low, c.limit, m, attempts, longest0, longest);
      }
      if c.low == c.ip && c.longest0 == 3 && longest < MINMATCH {
        SeekStep(buf, c.ip, Nearest(c.favorDecSpeed), m, attempts, next);
      }
    }
  }

  lemma GoneThrough(buf: seq<byte>, c: Call, next: int, attempts: int, longest: nat, matchpos: nat, stop: bool, chainPos: nat)
    requires c.ip + 4 <= c.limit <= |buf| && Going(buf, c, next, attempts, longest, matchpos, stop, chainPos)
    requires stop || next < WindowStart(c.ip) || attempts <= 0
    ensures Exhaustive(buf, c.ip, c.attempts) ==>
      && (c.Straight() && c.low == c.ip && 3 <= c.longest0 ==>
            (longest, matchpos) == NaiveSearch(buf, c.ip, WindowStart(c.ip), c.limit, c.longest0))
      && (c.Straight() ==> NoWider(buf, c.ip, c.low, c.limit, longest))
      && (c.low == c.ip && c.longest0 == 3 && longest < MINMATCH ==> Matchless(buf, c.ip, Nearest(c.favorDecSpeed)))
  {
    hide HashPtr, Walked, Widening, Seeking, CandidateCount, NaiveSearch, NoWider, Matchless, Exhaustive;
    if Exhaustive(buf, c.ip, c.attempts) {
      if c.Straight() {
        if c.low == c.ip && 3 <= c.longest0 { WalkEnd(buf, c.ip, c.limit, c.longest0, next, attempts, longest, matchpos); }
        WidenEnd(buf, c.ip, c.low, c.limit, next, attempts, longest);
      }
      if c.low == c.ip && c.longest0 == 3 && longest < MINMATCH { SeekEnd(buf, c.ip, Nearest(c.favorDecSpeed), next, attempts); }
    }
  }

  class HcContext {
    const hashTable: array<nat>
    const chainTable: array<U16>
    var buf: seq<byte>
    var dictLimit: nat
    var nextToUpdate: nat

    ghost predicate Shape()
      reads this
    {
      && hashTable.Length == HASH_SIZE && chainTable.Length == CHAIN_SIZE && (hashTable as object) != (chainTable as object)
      && CHAIN_SIZE <= dictLimit <= nextToUpdate
      && Hashable(buf, nextToUpdate - dictLimit)
    }

    /** The hash table knows the latest indexed position of each hash; any other
        entry is at least 64 KB before the first index. */
    ghost predicate Heads(next: nat)
      requires Shape() && Hashable(buf, next)
      reads this, hashTable
    {
      forall h :: 0 <= h < HASH_SIZE ==>
        var q := LatestBefore(buf, next, h);
        if 0 <= q then hashTable[h] == q + dictLimit else hashTable[h] + CHAIN_SIZE <= dictLimit
    }

    /** The chain entries of the last 64 K indexed positions are intact. */
    ghost predicate Chains(next: nat)
      requires Shape() && Hashable(buf, next)
      reads this, chainTable
    {
      forall p: nat :: next - CHAIN_SIZE <= p < next ==>
        chainTable[Slot(p, dictLimit)] == ChainDelta(buf, p)
    }

    ghost predicate Valid()
      reads this, hashTable, chainTable
    {
      && Shape()
      && Heads(nextToUpdate - dictLimit)
      && Chains(nextToUpdate - dictLimit)
    }

    /** LZ4HC_init_internal on zeroed memory. */
    constructor (buf: seq<byte>)
      ensures Valid() && this.buf == buf && nextToUpdate == dictLimit
      ensures fresh(hashTable) && fresh(chainTable)
    {
      this.buf := buf;
      hashTable := new nat[HASH_SIZE](_ => 0);
      chainTable := new U16[CHAIN_SIZE](_ => 65535);
      dictLimit := CHAIN_SIZE;
      nextToUpdate := CHAIN_SIZE;
    }

    /** LZ4HC_init_internal on a used context: the tables are kept, and a gap of
        64 KB puts every old entry out of reach of the new buffer. */
    method InitInternal(newBuf: seq<byte>)
      requires Valid() && nextToUpdate <= dictLimit + |buf|
      modifies this`buf, this`dictLimit, this`nextToUpdate, hashTable, chainTable
      ensures Valid() && buf == newBuf && nextToUpdate == dictLimit <= 0x4000_0000 + CHAIN_SIZE
    {
      var start := |buf| + dictLimit;
      if start > 0x4000_0000 {
        forall i | 0 <= i < HASH_SIZE { hashTable[i] := 0; }
        forall i | 0 <= i < CHAIN_SIZE { chainTable[i] := 65535; }
        start := 0;
      }
      start := start + CHAIN_SIZE;
      buf, dictLimit, nextToUpdate := newBuf, start, start;
    }

    /** Links index `idx`, of hash `h`, in front of its chain. */
    method InsertAt(idx: nat, h: nat)
      requires Shape() && dictLimit <= idx && idx - dictLimit + 4 <= |buf|
      requires h == HashPtr(buf, idx - dictLimit)
      requires Heads(idx - dictLimit) && Chains(idx - dictLimit)
      modifies hashTable, chainTable
      ensures Heads(idx - dictLimit + 1) && Chains(idx - dictLimit + 1)
    {
      hide HashPtr;
      ghost var next := idx - dictLimit;
      var delta := idx - hashTable[h];
      if delta > DISTANCE_MAX { delta := DISTANCE_MAX; }
      assert delta == ChainDelta(buf, next);
      forall p: nat | next + 1 - CHAIN_SIZE <= p < next
        ensures Slot(p, dictLimit) != Slot(next, dictLimit)
      {
        DistinctSlots(p, next, dictLimit);
      }
      chainTable[idx % CHAIN_SIZE] := delta;
      hashTable[h] := idx;
    }

    /** Indexes every position before `ip`. */
    method Insert(ip: nat)
      requires Valid() && nextToUpdate - dictLimit <= ip && ip + 4 <= |buf|
      modifies this`nextToUpdate, hashTable, chainTable
      ensures Valid() && nextToUpdate == ip + dictLimit
    {
      hide HashPtr;
      var target := ip + dictLimit;
      var idx := nextToUpdate;
      while idx < target
        invariant nextToUpdate == old(nextToUpdate) <= idx <= target
        invariant Heads(idx - dictLimit) && Chains(idx - dictLimit)
      {
        var h := HashPtr(buf, idx - dictLimit);
        InsertAt(idx, h);
        idx := idx + 1;
      }
      nextToUpdate := target;
    }

    /** Looks for a better chain inside a match: the largest distance stored for
        its first positions (chainSwap). */
    method BetterChain(matchIndex: nat, longest: nat) returns (distance: nat, chainPos: nat)
      requires Shape()
      ensures 1 <= distance
    {
      distance, chainPos := 1, 0;
      var end := longest - MINMATCH + 1;
      var pos, step, accel := 0, 1, 16;
      while pos < end
        invariant 1 <= distance && 1 <= step && 16 <= accel
        decreases end - pos
      {
        var candidate := chainTable[(matchIndex + pos) % CHAIN_SIZE];
        step := accel / 16;
        accel := accel + 1;
        if candidate > distance {
          distance, chainPos, accel := candidate, pos, 16;
        }
        pos := pos + step;
      }
    }

    /** The search jumps inside a run of one byte (patternAnalysis): to the place
        where the run before the candidate best fits the run at `ip`.  `next` is the
        index to go on from. */
    method JumpInRun(ip: nat, iLow: nat, iHigh: nat, matchIndex: nat, lowest: nat, srcRun: nat,
                     ghost longest0: nat, longest: nat, matchpos: nat, startpos: nat)
      returns (jumped: bool, next: nat, longest': nat, matchpos': nat, startpos': nat)
      requires Valid() && dictLimit <= lowest < matchIndex < ip + dictLimit
      requires ip + dictLimit <= lowest + DISTANCE_MAX && ip + MINMATCH <= iHigh <= |buf|
      requires RunAt(buf, ip, iHigh, srcRun)
      requires Found(buf, ip, iLow, iHigh, longest0, longest, matchpos, startpos)
      ensures jumped ==> next < matchIndex
      ensures Found(buf, ip, iLow, iHigh, longest0, longest', matchpos', startpos')
      ensures longest <= longest'
      ensures jumped && ip == iLow && longest' < MINMATCH ==> lowest <= next && SameWord(buf, next - dictLimit, ip)
    {
      hide Run, RunAt, SameWord, Repeats, IsMatch, Found;
      RunLength(buf, ip, iHigh, srcRun);
      FoundIsNoLess(buf, ip, iLow, iHigh, longest0, longest, matchpos, startpos);
      jumped, next, longest', matchpos', startpos' := false, matchIndex, longest, matchpos, startpos;
      var b := buf[ip];
      var candidate := matchIndex - 1;
      var m := candidate - dictLimit;
      if buf[m] == b && buf[m + 1] == b && buf[m + 2] == b && buf[m + 3] == b {
        jumped := true;
        FourIsRun(buf, m, b);
        var forward, backward := RunAround(buf, m, lowest - dictLimit, iHigh, b);
        var segment := backward + forward;
        if segment >= srcRun && forward <= srcRun {
          next := candidate + forward - srcRun;
          JumpTarget(buf, ip, iHigh, srcRun, m - backward, m + forward, next - dictLimit);
        } else {
          next := candidate - backward;
          if ip == iLow {
            var maxML := if segment < srcRun then segment else srcRun;
            if longest < maxML {
              RunIsFound(buf, ip, iHigh, longest0, srcRun, m - backward, segment, maxML);
              longest', matchpos', startpos' := maxML, m - backward, ip;
            }
            next := next - chainTable[next % CHAIN_SIZE];
          }
        }
      }
    }

    /** The head of the chain of `ip`: an earlier index. */
    method ChainHead(ip: nat) returns (matchIndex: nat)
      requires Valid() && nextToUpdate == ip + dictLimit && ip + 4 <= |buf|
      ensures matchIndex < ip + dictLimit
      ensures var q := LatestBefore(buf, ip, HashPtr(buf, ip));
              if 0 <= q then matchIndex == q + dictLimit else matchIndex < dictLimit
    {
      matchIndex := hashTable[HashPtr(buf, ip)];
    }

    /** The index that follows on the chain: for `chainPos == 0`, that of the
        previous position with the same hash, if it is still in the window. */
    method NextInChain(matchIndex: nat, chainPos: nat) returns (next: nat)
      requires Valid() && dictLimit <= matchIndex < nextToUpdate <= matchIndex + CHAIN_SIZE
      ensures next <= matchIndex
      ensures chainPos == 0 ==> next == matchIndex - ChainDelta(buf, matchIndex - dictLimit)
    {
      next := matchIndex - chainTable[(matchIndex + chainPos) % CHAIN_SIZE];
      if chainPos == 0 {
        assert chainTable[Slot(matchIndex - dictLimit, dictLimit)] == ChainDelta(buf, matchIndex - dictLimit);
      }
    }

    /** When the candidate continues a run of one byte: tells once whether there is one at
        `ip`, too, and jumps inside it. */
    method TryRun(ip: nat, iLow: nat, iHigh: nat, lowest: nat, matchIndex: nat, ghost longest0: nat,
                  longest: nat, matchpos: nat, startpos: nat, chainPos: nat, repeat: RepeatState, srcRun: nat)
      returns (jumped: bool, next: nat, longest': nat, matchpos': nat, startpos': nat, repeat': RepeatState, srcRun': nat)
      requires Valid() && dictLimit <= lowest <= matchIndex < ip + dictLimit && ip + dictLimit <= lowest + DISTANCE_MAX
      requires ip + MINMATCH <= iHigh <= |buf| && Found(buf, ip, iLow, iHigh, longest0, longest, matchpos, startpos)
      requires repeat == Confirmed ==> RunAt(buf, ip, iHigh, srcRun)
      ensures jumped ==> next < matchIndex
      ensures Found(buf, ip, iLow, iHigh, longest0, longest', matchpos', startpos')
      ensures longest <= longest'
      ensures jumped && ip == iLow && longest' < MINMATCH ==> lowest <= next && SameWord(buf, next - dictLimit, ip)
      ensures repeat' == Confirmed ==> RunAt(buf, ip, iHigh, srcRun')
    {
      hide RunAt, Found;
      jumped, next, longest', matchpos', startpos', repeat', srcRun' := false, matchIndex, longest, matchpos, startpos, repeat, srcRun;
      if chainTable[matchIndex % CHAIN_SIZE] == 1 && chainPos == 0 {
        if repeat == Untested { repeat', srcRun' := DetectRun(buf, ip, iHigh); }
        if repeat' == Confirmed && matchIndex - 1 >= lowest {
          jumped, next, longest', matchpos', startpos' :=
            JumpInRun(ip, iLow, iHigh, matchIndex, lowest, srcRun', longest0, longest, matchpos, startpos);
        }
      }
    }

    /** Goes on along the chain of another byte of the match, if its next position is
        further away. */
    method SwapChain(matchIndex: nat, longest: nat, chainPos0: nat) returns (swapped: bool, stop: bool, next: nat, chainPos: nat)
      requires Shape()
      ensures next <= matchIndex && (swapped && !stop ==> next < matchIndex) && (!swapped ==> !stop && chainPos == chainPos0)
    {
      swapped, stop, next, chainPos := false, false, matchIndex, chainPos0;
      var distance, pos := BetterChain(matchIndex, longest);
      if distance > 1 {
        swapped, chainPos, stop := true, pos, distance > matchIndex;
        if !stop { next := matchIndex - distance; }
      }
    }

    /** One turn of the search: tries the candidate at `matchIndex` and chooses the
        next one.  `stop` ends the search at once. */
    method TryAndMove(ghost c: Call, ip: nat, iLow: nat, iHigh: nat, lowest: nat, matchIndex: nat, ghost longest0: nat,
                      patternAnalysis: bool, chainSwap: bool, favorDecSpeed: bool,
                      longest0': nat, matchpos0: nat, startpos0: nat, chainPos0: nat, repeat0: RepeatState, srcRun0: nat)
      returns (stop: bool, next: nat, longest: nat, matchpos: nat, startpos: nat,
               chainPos: nat, repeat: RepeatState, srcRun: nat)
      requires Valid() && nextToUpdate == ip + dictLimit && dictLimit <= lowest <= matchIndex < ip + dictLimit
      requires ip + dictLimit <= lowest + DISTANCE_MAX
      requires iLow <= ip && ip + MINMATCH <= iHigh < |buf|
      requires ip - iLow < longest0 && iLow + longest0 < |buf|
      requires Found(buf, ip, iLow, iHigh, longest0, longest0', matchpos0, startpos0)
      requires repeat0 == Confirmed ==> RunAt(buf, ip, iHigh, srcRun0)
      requires c == Call(ip, iLow, iHigh, longest0, c.attempts, patternAnalysis, chainSwap, favorDecSpeed) && lowest == WindowStart(ip) + dictLimit
      ensures next < ip + dictLimit && longest0' <= longest
      ensures Found(buf, ip, iLow, iHigh, longest0, longest, matchpos, startpos)
      ensures repeat == Confirmed ==> RunAt(buf, ip, iHigh, srcRun)
      ensures Turned(buf, c, matchIndex - dictLimit, longest0', matchpos0, chainPos0, next - dictLimit, longest, matchpos, stop, chainPos)
    {
      hide HashPtr, Read32, IsMatch, Heads, Chains, RunAt, Found, CommonLength, ChainDelta, SameWord, CannotGrow, NoWiderAt;
      SameWordIsMatch(buf, ip, matchIndex - dictLimit, iHigh);
      stop, next, longest, matchpos, startpos := false, matchIndex, longest0', matchpos0, startpos0;
      chainPos, repeat, srcRun := chainPos0, repeat0, srcRun0;
      var matchLength := 0;
      if !(favorDecSpeed && ip + dictLimit - matchIndex < 8) {
        matchLength, longest, matchpos, startpos :=
          TryCandidate(buf, ip, matchIndex - dictLimit, iLow, iHigh, longest0, longest, matchpos, startpos);
      }
      if chainSwap && matchLength == longest && matchIndex + longest <= ip + dictLimit {
        var swapped;
        swapped, stop, next, chainPos := SwapChain(matchIndex, longest, chainPos);
        if swapped { return; }
      }
      ghost var longestWas := longest;
      if patternAnalysis {
        var jumped;
        jumped, next, longest, matchpos, startpos, repeat, srcRun :=
          TryRun(ip, iLow, iHigh, lowest, matchIndex, longest0, longest, matchpos, startpos, chainPos, repeat, srcRun);
        if !favorDecSpeed { StillNoWider(buf, ip, iLow, iHigh, longestWas, longest, matchIndex - dictLimit); }
        if jumped { return; }
      }
      next := NextInChain(matchIndex, chainPos);
    }

    /** Follows the chain of `ip`, keeping the widest match. */
    method WalkChain(ip: nat, iLow: nat, iHigh: nat, longest0: nat, maxNbAttempts: int,
                     patternAnalysis: bool, chainSwap: bool, favorDecSpeed: bool)
      returns (longest: nat, matchpos: nat, startpos: nat)
      requires Valid() && nextToUpdate == ip + dictLimit
      requires iLow <= ip && ip + MINMATCH <= iHigh < |buf|
      requires ip - iLow < longest0 && iLow + longest0 < |buf|
      ensures Found(buf, ip, iLow, iHigh, longest0, longest, matchpos, startpos)
      ensures iLow == ip && 3 <= longest0 && !patternAnalysis && !chainSwap && !favorDecSpeed && Exhaustive(buf, ip, maxNbAttempts) ==>
                (longest, matchpos) == NaiveSearch(buf, ip, WindowStart(ip), iHigh, longest0)
      ensures iLow == ip && longest0 == 3 && longest < MINMATCH && Exhaustive(buf, ip, maxNbAttempts) ==>
                Matchless(buf, ip, Nearest(favorDecSpeed))
      ensures !patternAnalysis && !chainSwap && !favorDecSpeed && Exhaustive(buf, ip, maxNbAttempts) ==> NoWider(buf, ip, iLow, iHigh, longest)
    {
      hide HashPtr, Heads, Chains, RunAt, Found, NaiveSearch, CandidateCount, Exhaustive, Matchless, NoWider, Going, Turned;
      ghost var c := Call(ip, iLow, iHigh, longest0, maxNbAttempts, patternAnalysis, chainSwap, favorDecSpeed);
      longest, matchpos, startpos := longest0, 0, 0;
      NothingFound(buf, ip, iLow, iHigh, longest0);
      var ipIndex := ip + dictLimit;
      var lowest := if dictLimit + (DISTANCE_MAX + 1) > ipIndex then dictLimit else ipIndex - DISTANCE_MAX;
      var matchIndex := ChainHead(ip);
      var nbAttempts, chainPos := maxNbAttempts, 0;
      var repeat, srcRun, stop := Untested, 0, false;
      GoStart(buf, c, matchIndex - dictLimit);
      while !stop && matchIndex >= lowest && nbAttempts > 0
        invariant matchIndex < ipIndex
        invariant Going(buf, c, matchIndex - dictLimit, nbAttempts, longest, matchpos, stop, chainPos)
        invariant Found(buf, ip, iLow, iHigh, longest0, longest, matchpos, startpos)
        invariant repeat == Confirmed ==> RunAt(buf, ip, iHigh, srcRun)
        decreases nbAttempts
      {
        ghost var m, longestWas, matchposWas, stopWas, chainPosWas := matchIndex - dictLimit, longest, matchpos, stop, chainPos;
        nbAttempts := nbAttempts - 1;
        stop, matchIndex, longest, matchpos, startpos, chainPos, repeat, srcRun :=
          TryAndMove(c, ip, iLow, iHigh, lowest, matchIndex, longest0, patternAnalysis, chainSwap, favorDecSpeed,
                     longest, matchpos, startpos, chainPos, repeat, srcRun);
        GoOn(buf, c, m, nbAttempts + 1, longestWas, matchposWas, stopWas, chainPosWas,
             matchIndex - dictLimit, longest, matchpos, stop, chainPos);
      }
      GoneThrough(buf, c, matchIndex - dictLimit, nbAttempts, longest, matchpos, stop, chainPos);
    }

    /** LZ4HC_InsertAndGetWiderMatch, prefix mode: the widest match around `ip`,
        starting at `iLow` or later, that beats `longest0`. */
    method InsertAndGetWiderMatch(ip: nat, iLow: nat, iHigh: nat, longest0: nat, maxNbAttempts: int,
                                  patternAnalysis: bool, chainSwap: bool, favorDecSpeed: bool)
      returns (longest: nat, matchpos: nat, startpos: nat)
      requires Valid() && nextToUpdate - dictLimit <= ip
      requires iLow <= ip && ip + MINMATCH <= iHigh < |buf|
      requires ip - iLow < longest0 && iLow + longest0 < |buf|
      modifies this`nextToUpdate, hashTable, chainTable
      ensures Valid() && nextToUpdate == ip + dictLimit
      ensures Found(buf, ip, iLow, iHigh, longest0, longest, matchpos, startpos)
      ensures iLow == ip && 3 <= longest0 && !patternAnalysis && !chainSwap && !favorDecSpeed && Exhaustive(buf, ip, maxNbAttempts) ==>
                (longest, matchpos) == NaiveSearch(buf, ip, WindowStart(ip), iHigh, longest0)
      ensures iLow == ip && longest0 == 3 && longest < MINMATCH && Exhaustive(buf, ip, maxNbAttempts) ==>
                Matchless(buf, ip, Nearest(favorDecSpeed))
      ensures !patternAnalysis && !chainSwap && !favorDecSpeed && Exhaustive(buf, ip, maxNbAttempts) ==> NoWider(buf, ip, iLow, iHigh, longest)
    {
      hide HashPtr, CandidateCount, NaiveSearch, Exhaustive, Matchless, NoWider;
      Insert(ip);
      longest, matchpos, startpos :=
        WalkChain(ip, iLow, iHigh, longest0, maxNbAttempts, patternAnalysis, chainSwap, favorDecSpeed);
    }

    /** LZ4HC_InsertAndFindBestMatch: no looking back, no chain swap.  When the
        attempts suffice and runs are not analysed, the result is the longest match
        in the window, and the nearest of the longest. */
    method InsertAndFindBestMatch(ip: nat, iLimit: nat, maxNbAttempts: int, patternAnalysis: bool)
      returns (longest: nat, matchpos: nat)
      requires Valid() && nextToUpdate - dictLimit <= ip && ip + MINMATCH <= iLimit < |buf|
      modifies this`nextToUpdate, hashTable, chainTable
      ensures Valid() && nextToUpdate == ip + dictLimit
      ensures longest == MINMATCH - 1 || (MINMATCH <= longest && IsMatch(buf, ip, matchpos, longest, iLimit))
      ensures MINMATCH <= longest && iLimit + LASTLITERALS == |buf| ==> CannotGrow(buf, ip - matchpos, ip + longest)
      ensures !patternAnalysis && Exhaustive(buf, ip, maxNbAttempts) ==>
                IsLongestMatch(buf, ip, iLimit, longest, matchpos)
      ensures longest < MINMATCH && Exhaustive(buf, ip, maxNbAttempts) ==> Matchless(buf, ip, 1)
    {
      hide HashPtr, CandidateCount, NaiveSearch, Exhaustive, Matchless;
      var startpos;
      longest, matchpos, startpos :=
        InsertAndGetWiderMatch(ip, ip, iLimit, MINMATCH - 1, maxNbAttempts, patternAnalysis, false, false);
      NaiveSearchIsLongest(buf, ip, WindowStart(ip), iLimit, MINMATCH - 1);
    }
  }
}
