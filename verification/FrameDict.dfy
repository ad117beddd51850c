/** The decoder's history of linked blocks: LZ4F_updateDict and the preservation of the
    history at the end of a call.

    The dictionary is a region of the output buffer or of `tmpOutBuffer`.  At all times
    it ends with the last 64 KB of the content delivered so far; while a decoded block is
    being flushed out of `tmpOutBuffer`, the block itself lies behind what it needs.
 */
module FrameDict {
  import opened Basics
  import opened BlockFormat
  import opened FrameHistory

  const KB128: nat := 0x2_0000

  datatype Where = Nowhere | InDst | InTmp

  /** dict and dictSize: a pointer into one of two buffers, and a size. */
  datatype Dict = Dict(buf: Where, at: nat, size: nat)

  /** tmpOut, tmpOutSize and tmpOutStart: the decoded block and how much of it is flushed. */
  datatype TmpOut = TmpOut(at: nat, size: nat, start: nat)

  predicate InBounds(dict: Dict, tmp: seq<byte>, dst: seq<byte>) {
    match dict.buf
    case Nowhere => dict.size == 0
    case InDst => dict.at + dict.size <= |dst|
    case InTmp => dict.at == 0 && dict.size <= |tmp|
  }

  function DictBytes(dict: Dict, tmp: seq<byte>, dst: seq<byte>): (r: seq<byte>)
    requires InBounds(dict, tmp, dst)
    ensures |r| == dict.size
  {
    match dict.buf
    case Nowhere => []
    case InDst => dst[dict.at..dict.at + dict.size]
    case InTmp => tmp[..dict.size]
  }

  /** The dictionary serves as history for what comes behind `out`. */
  predicate HistoryOk(dict: Dict, tmp: seq<byte>, dst: seq<byte>, out: seq<byte>) {
    InBounds(dict, tmp, dst) && Covers(DictBytes(dict, tmp, dst), out)
  }

  /** How much history has to be kept in front of the block in `tmpOutBuffer`. */
  function CopySize(t: TmpOut): nat {
    if t.size > KB64 then 0 else Min(KB64 - t.size, t.at)
  }

  /** `start` bytes of the block `t` are delivered, and there is room in front of it for
      the history it was decoded with. */
  predicate Delivered(tmp: seq<byte>, t: TmpOut, start: nat, out: seq<byte>) {
    && start <= t.size && t.at + t.size <= |tmp| && start <= |out|
    && Last(out, start) == tmp[t.at..t.at + start]
    && Min(KB64, |out| - start) <= t.at
  }

  /** `HistoryOk` while the block `t` is flushed, of which `start` bytes are delivered. */
  predicate FlushOk(dict: Dict, tmp: seq<byte>, dst: seq<byte>, t: TmpOut, start: nat, out: seq<byte>) {
    && InBounds(dict, tmp, dst) && Delivered(tmp, t, start, out)
    && if dict.buf == InTmp then
         dict.size == t.at + start && Covers(tmp[..t.at + t.size], out + tmp[t.at + start..t.at + t.size])
       else
         Covers(DictBytes(dict, tmp, dst), out) && (0 < CopySize(t) ==> start + CopySize(t) <= dict.size)
  }

  /** `Covers` for the last `n` bytes only. */
  predicate EndsLike(region: seq<byte>, out: seq<byte>, n: nat) {
    var k := Min(n, |out|);
    k <= |region| && Last(region, k) == Last(out, k)
  }

  lemma EndsLikeShorter(region: seq<byte>, out: seq<byte>, n: nat, m: nat)
    requires EndsLike(region, out, n) && m <= n
    ensures EndsLike(region, out, m)
  {
    var k, j := Min(n, |out|), Min(m, |out|);
    assert Last(region, j) == Last(Last(region, k), j) && Last(out, j) == Last(Last(out, k), j);
  }

  lemma EndsLikeAppend(region: seq<byte>, out: seq<byte>, n: nat, x: seq<byte>)
    requires EndsLike(region, out, n)
    ensures EndsLike(region + x, out + x, n + |x|)
  {
    var k := Min(n, |out|);
    assert Last(region + x, k + |x|) == Last(region, k) + x && Last(out + x, k + |x|) == Last(out, k) + x;
  }

  lemma EndsLikeBefore(region: seq<byte>, out: seq<byte>, n: nat, m: nat)
    requires EndsLike(region, out, n) && m <= n && m <= |out| && m <= |region|
    ensures EndsLike(region[..|region| - m], out[..|out| - m], n - m)
  {
    hide Last;
    var k := Min(n, |out|);
    LastBefore(region, k, m);
    LastBefore(out, k, m);
  }

  lemma LastBefore(x: seq<byte>, k: nat, m: nat)
    requires m <= k <= |x|
    ensures Last(x[..|x| - m], k - m) == Last(x, k)[..k - m]
  {
  }

  // ----- Keeping the history of a block that is being flushed -----

  /** The history in front of the block is copied there: the block's buffer becomes the
      dictionary, in LZ4F_updateDict and at the end of LZ4F_decompress. */
  function Preserved(dict: Dict, tmp: seq<byte>, dst: seq<byte>, t: TmpOut): (r: seq<byte>)
    requires InBounds(dict, tmp, dst) && t.at + t.size <= |tmp|
    requires 0 < CopySize(t) ==> t.start + CopySize(t) <= dict.size
    ensures |r| == |tmp|
  {
    var n := CopySize(t);
    if n == 0 then tmp
    else
      var d := DictBytes(dict, tmp, dst);
      tmp[..t.at - n] + d[|d| - t.start - n..|d| - t.start] + tmp[t.at..]
  }

  lemma PreservedSlices(dict: Dict, tmp: seq<byte>, dst: seq<byte>, t: TmpOut)
    requires InBounds(dict, tmp, dst) && t.at + t.size <= |tmp|
    requires 0 < CopySize(t) ==> t.start + CopySize(t) <= dict.size
    ensures var d, n, tmp' := DictBytes(dict, tmp, dst), CopySize(t), Preserved(dict, tmp, dst, t);
            && tmp'[t.at..] == tmp[t.at..]
            && (0 < n ==> Last(tmp'[..t.at], n) == Last(d[..|d| - t.start], n))
  {
    var d, n, tmp' := DictBytes(dict, tmp, dst), CopySize(t), Preserved(dict, tmp, dst, t);
    assert tmp'[t.at..] == tmp[t.at..];
    if 0 < n {
      assert Last(tmp'[..t.at], n) == d[|d| - t.start - n..|d| - t.start];
      assert Last(d[..|d| - t.start], n) == d[|d| - t.start - n..|d| - t.start];
    }
  }

  lemma PreservedOk(dict: Dict, tmp: seq<byte>, dst: seq<byte>, t: TmpOut, out: seq<byte>)
    requires FlushOk(dict, tmp, dst, t, t.start, out) && dict.buf != InTmp
    ensures var tmp' := Preserved(dict, tmp, dst, t);
            && tmp'[t.at..] == tmp[t.at..]
            && FlushOk(Dict(InTmp, 0, t.at + t.start), tmp', dst, t, t.start, out)
  {
    hide Preserved, DictBytes, CopySize, Covers;
    var d, tmp' := DictBytes(dict, tmp, dst), Preserved(dict, tmp, dst, t);
    PreservedSlices(dict, tmp, dst, t);
    SameSlices(tmp, tmp', t.at, t.start, t.size);
    FrontCovers(d, t, out, tmp'[..t.at], tmp[t.at..t.at + t.size]);
    Rejoin(tmp', t, out);
  }

  lemma Rejoin(x: seq<byte>, t: TmpOut, out: seq<byte>)
    requires t.start <= t.size && t.at + t.size <= |x| && t.start <= |out| && Last(out, t.start) == x[t.at..t.at + t.start]
    ensures x[..t.at] + x[t.at..t.at + t.size] == x[..t.at + t.size]
    ensures out[..|out| - t.start] + x[t.at..t.at + t.size] == out + x[t.at + t.start..t.at + t.size]
  {
    assert out == out[..|out| - t.start] + Last(out, t.start);
    assert x[t.at..t.at + t.size] == x[t.at..t.at + t.start] + x[t.at + t.start..t.at + t.size];
  }

  lemma FrontCovers(d: seq<byte>, t: TmpOut, out: seq<byte>, front: seq<byte>, block: seq<byte>)
    requires t.start <= t.size == |block| && t.at == |front| && t.start <= |out| && Covers(d, out)
    requires Min(KB64, |out| - t.start) <= t.at
    requires 0 < CopySize(t) ==> t.start + CopySize(t) <= |d| && Last(front, CopySize(t)) == Last(d[..|d| - t.start], CopySize(t))
    ensures Covers(front + block, out[..|out| - t.start] + block)
  {
    hide EndsLike, Last;
    var n, before := CopySize(t), out[..|out| - t.start];
    HistoryInFront(d, n, t, out, front);
    EndsLikeAppend(front, before, n, block);
    EnoughInFront(front + block, before, block, n, t);
  }

  lemma SameSlices(x: seq<byte>, y: seq<byte>, at: nat, start: nat, size: nat)
    requires |x| == |y| && start <= size && at + size <= |x| && x[at..] == y[at..]
    ensures x[at..at + size] == y[at..at + size]
    ensures x[at..at + start] == y[at..at + start] && x[at + start..at + size] == y[at + start..at + size]
    ensures x[at..at + size] == x[at..at + start] + x[at + start..at + size]
  {
    assert x[at..at + size] == x[at..][..size] && y[at..at + size] == y[at..][..size];
    assert x[at..at + start] == x[at..][..start] && y[at..at + start] == y[at..][..start];
    assert x[at + start..at + size] == x[at..][start..size] && y[at + start..at + size] == y[at..][start..size];
  }

  lemma SliceBehind(x: seq<byte>, y: seq<byte>, at: nat, a: nat, b: nat)
    requires |x| == |y| && at <= |x| && x[at..] == y[at..] && a <= b && at + b <= |x|
    ensures x[at + a..at + b] == y[at + a..at + b]
  {
    forall k | at + a <= k < at + b ensures x[k] == y[k] {
      assert x[k] == x[at..][k - at] && y[k] == y[at..][k - at];
    }
  }

  lemma LastOfLast(x: seq<byte>, n: nat, k: nat)
    requires k <= n <= |x|
    ensures Last(Last(x, n), k) == Last(x, k)
  {
  }

  lemma SameEnd(region: seq<byte>, d: seq<byte>, out: seq<byte>, n: nat)
    requires n <= |region| && n <= |d| && Last(region, n) == Last(d, n) && EndsLike(d, out, n)
    ensures EndsLike(region, out, n)
  {
    var k := Min(n, |out|);
    LastOfLast(region, n, k);
    LastOfLast(d, n, k);
  }

  /** The copied bytes are the last ones before the block. */
  lemma HistoryInFront(d: seq<byte>, n: nat, t: TmpOut, out: seq<byte>, front: seq<byte>)
    requires n == CopySize(t) && t.start <= t.size && t.at == |front| && t.start <= |out| && Covers(d, out)
    requires 0 < n ==> t.start + n <= |d| && Last(front, n) == Last(d[..|d| - t.start], n)
    ensures EndsLike(front, out[..|out| - t.start], n)
  {
    if n != 0 {
      var before, d' := out[..|out| - t.start], d[..|d| - t.start];
      EndsLikeBefore(d, out, KB64, t.start);
      EndsLikeShorter(d', before, KB64 - t.start, n);
      hide EndsLike, Last;
      SameEnd(front, d', before, n);
    }
  }

  lemma EnoughInFront(region: seq<byte>, before: seq<byte>, block: seq<byte>, n: nat, t: TmpOut)
    requires n == CopySize(t) && |block| == t.size && Min(KB64, |before|) <= t.at
    requires EndsLike(region, before + block, n + |block|)
    ensures Covers(region, before + block)
  {
    if n + |block| >= KB64 {
      EndsLikeShorter(region, before + block, n + |block|, KB64);
    } else {
      assert n == t.at && |before| <= n;
    }
  }

  // ----- LZ4F_updateDict, case by case -----

  /** An empty dictionary may be placed anywhere. */
  lemma EmptyDict(dict: Dict, tmp: seq<byte>, dst: seq<byte>, t: TmpOut, within: bool, out: seq<byte>, dstPtr: nat)
    requires dict.size == 0 && dstPtr <= |dst|
    requires if within then FlushOk(dict, tmp, dst, t, t.start, out) else HistoryOk(dict, tmp, dst, out)
    ensures var d := Dict(InDst, dstPtr, 0);
            if within then FlushOk(d, tmp, dst, t, t.start, out) else HistoryOk(d, tmp, dst, out)
  {
    hide Covers;
    if within && dict.buf == InTmp {
      assert |out| == 0;
    } else {
      NothingCovered(DictBytes(dict, tmp, dst), out);
    }
    NothingNeeded(out);
    assert DictBytes(Dict(InDst, dstPtr, 0), tmp, dst) == [];
  }

  lemma NothingCovered(region: seq<byte>, out: seq<byte>)
    requires Covers(region, out) && region == []
    ensures |out| == 0
  {
  }

  lemma NothingNeeded(out: seq<byte>)
    requires |out| == 0
    ensures Covers([], out)
  {
  }

  /** Prefix mode: the new bytes follow the dictionary in the output buffer. */
  lemma ExtendInDst(dict: Dict, tmp: seq<byte>, dst: seq<byte>, out: seq<byte>, n: nat)
    requires dict.buf == InDst && dict.at + dict.size + n <= |dst| && HistoryOk(dict, tmp, dst, out)
    ensures var x := dst[dict.at + dict.size..dict.at + dict.size + n];
            HistoryOk(Dict(InDst, dict.at, dict.size + n), tmp, dst, out + x)
  {
    hide Covers, DictBytes;
    DictGrows(dict, tmp, dst, n);
    CoversAppend(DictBytes(dict, tmp, dst), out, dst[dict.at + dict.size..dict.at + dict.size + n]);
  }

  lemma FlushInDst(dict: Dict, tmp: seq<byte>, dst: seq<byte>, t: TmpOut, out: seq<byte>, n: nat)
    requires dict.buf == InDst && dict.at + dict.size + n <= |dst|
    requires FlushOk(dict, tmp, dst, t, t.start, out) && t.start + n <= t.size
    requires dst[dict.at + dict.size..dict.at + dict.size + n] == tmp[t.at + t.start..t.at + t.start + n]
    ensures var x := dst[dict.at + dict.size..dict.at + dict.size + n];
            FlushOk(Dict(InDst, dict.at, dict.size + n), tmp, dst, t, t.start + n, out + x)
  {
    hide Delivered, CopySize, Covers, DictBytes;
    var x := dst[dict.at + dict.size..dict.at + dict.size + n];
    Flushed(tmp, t, out, x);
    ExtendInDst(dict, tmp, dst, out, n);
  }

  lemma DictGrows(dict: Dict, tmp: seq<byte>, dst: seq<byte>, n: nat)
    requires dict.buf == InDst && dict.at + dict.size + n <= |dst|
    ensures DictBytes(Dict(InDst, dict.at, dict.size + n), tmp, dst)
         == DictBytes(dict, tmp, dst) + dst[dict.at + dict.size..dict.at + dict.size + n]
  {
  }

  /** The delivered part of the block grows. */
  lemma Flushed(tmp: seq<byte>, t: TmpOut, out: seq<byte>, x: seq<byte>)
    requires Delivered(tmp, t, t.start, out) && t.start + |x| <= t.size
    requires x == tmp[t.at + t.start..t.at + t.start + |x|]
    ensures Delivered(tmp, t, t.start + |x|, out + x)
    ensures (out + x) + tmp[t.at + t.start + |x|..t.at + t.size] == out + tmp[t.at + t.start..t.at + t.size]
  {
    hide Delivered;
    DeliveredMore(tmp, t, out, x);
    assert tmp[t.at + t.start..t.at + t.size] == x + tmp[t.at + t.start + |x|..t.at + t.size];
  }

  lemma DeliveredMore(tmp: seq<byte>, t: TmpOut, out: seq<byte>, x: seq<byte>)
    requires Delivered(tmp, t, t.start, out) && t.start + |x| <= t.size
    requires x == tmp[t.at + t.start..t.at + t.start + |x|]
    ensures Delivered(tmp, t, t.start + |x|, out + x) && t.at + t.size <= |tmp|
  {
    assert Last(out + x, t.start + |x|) == Last(out, t.start) + x;
  }

  /** The output of this call alone is history enough. */
  lemma OutputIsHistory(tmp: seq<byte>, dst: seq<byte>, out: seq<byte>, dstStart: nat, dstPtr: nat, n: nat)
    requires dstStart <= dstPtr && dstPtr + n <= |dst| && KB64 <= dstPtr - dstStart + n
    requires dstPtr - dstStart <= |out| && Last(out, dstPtr - dstStart) == dst[dstStart..dstPtr]
    ensures HistoryOk(Dict(InDst, dstStart, dstPtr - dstStart + n), tmp, dst, out + dst[dstPtr..dstPtr + n])
  {
    var x, region := dst[dstPtr..dstPtr + n], dst[dstStart..dstPtr + n];
    assert region == dst[dstStart..dstPtr] + x;
    assert out + x == out[..|out| - (dstPtr - dstStart)] + region;
    CoversSelf(out[..|out| - (dstPtr - dstStart)], region);
  }

  lemma OutputIsFlushHistory(dict: Dict, tmp: seq<byte>, dst: seq<byte>, t: TmpOut, out: seq<byte>,
                             dstStart: nat, dstPtr: nat, n: nat)
    requires dstStart <= dstPtr && dstPtr + n <= |dst| && KB64 <= dstPtr - dstStart + n
    requires dstPtr - dstStart <= |out| && Last(out, dstPtr - dstStart) == dst[dstStart..dstPtr]
    requires FlushOk(dict, tmp, dst, t, t.start, out) && t.start + n <= t.size
    requires dst[dstPtr..dstPtr + n] == tmp[t.at + t.start..t.at + t.start + n]
    ensures FlushOk(Dict(InDst, dstStart, dstPtr - dstStart + n), tmp, dst, t, t.start + n, out + dst[dstPtr..dstPtr + n])
  {
    hide Delivered, Covers, DictBytes;
    Flushed(tmp, t, out, dst[dstPtr..dstPtr + n]);
    assert t.start + n <= t.size;
    OutputIsHistory(tmp, dst, out, dstStart, dstPtr, n);
  }

  /** The dictionary lies right in front of the bytes being flushed. */
  lemma ExtendInTmp(dict: Dict, tmp: seq<byte>, dst: seq<byte>, t: TmpOut, out: seq<byte>, x: seq<byte>)
    requires dict.buf == InTmp && FlushOk(dict, tmp, dst, t, t.start, out) && t.start + |x| <= t.size
    requires x == tmp[t.at + t.start..t.at + t.start + |x|]
    ensures FlushOk(Dict(InTmp, 0, dict.size + |x|), tmp, dst, t, t.start + |x|, out + x)
  {
    hide Covers;
    Flushed(tmp, t, out, x);
  }

  /** The end of the dictionary, then the new bytes. */
  lemma JoinInTmp(dict: Dict, tmp: seq<byte>, dst: seq<byte>, out: seq<byte>, keep: nat, x: seq<byte>, tmp': seq<byte>)
    requires HistoryOk(dict, tmp, dst, out) && keep <= dict.size && keep + |x| <= |tmp'|
    requires keep == dict.size || KB64 <= keep + |x|
    requires tmp'[..keep] == Last(DictBytes(dict, tmp, dst), keep) && tmp'[keep..keep + |x|] == x
    ensures HistoryOk(Dict(InTmp, 0, keep + |x|), tmp', dst, out + x)
  {
    hide Covers;
    assert DictBytes(Dict(InTmp, 0, keep + |x|), tmp', dst) == tmp'[..keep + |x|];
    hide DictBytes;
    assert tmp'[..keep + |x|] == tmp'[..keep] + tmp'[keep..keep + |x|];
    JoinCovers(DictBytes(dict, tmp, dst), out, keep, x);
  }

  lemma JoinCovers(d: seq<byte>, out: seq<byte>, keep: nat, x: seq<byte>)
    requires Covers(d, out) && keep <= |d| && (keep == |d| || KB64 <= keep + |x|)
    ensures Covers(Last(d, keep) + x, out + x)
  {
    hide Covers;
    CoversAppend(d, out, x);
    assert Last(d, keep) + x == Last(d + x, keep + |x|);
    if keep == |d| {
      assert Last(d + x, keep + |x|) == d + x;
    } else {
      CoversTail(d + x, out + x, keep + |x|);
    }
  }
}
