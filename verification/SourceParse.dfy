/** What every LZ4 compressor has to establish about its source.

    `buf` holds the history followed by the block to compress, which starts at
    `start`.  A compressor cuts the block into sequences; `Tiles` says that the
    sequences emitted so far stand for exactly `buf[start..anchor]`.
 */
module SourceParse {
  import opened BlockFormat

  /** The `len` bytes at `s` repeat the `len` bytes at `r`. */
  predicate Repeats(buf: seq<byte>, s: nat, r: nat, len: nat)
    requires s + len <= |buf| && r + len <= |buf|
  {
    len == 0 || (buf[s + len - 1] == buf[r + len - 1] && Repeats(buf, s, r, len - 1))
  }

  /** A usable match: at `s`, `len` bytes repeat those at `r`, and end by `limit`. */
  predicate IsMatch(buf: seq<byte>, s: nat, r: nat, len: nat, limit: nat) {
    && r < s && s - r <= DISTANCE_MAX
    && s + len <= limit <= |buf|
    && Repeats(buf, s, r, len)
  }

  /** `ss` is a valid parse of `buf[start..anchor]`. */
  ghost predicate Tiles(buf: seq<byte>, start: nat, anchor: nat, ss: seq<Sequence>) {
    && start <= anchor <= |buf|
    && ValidSequences(buf[..start], ss)
    && Replay(buf[..start], ss) == buf[..anchor]
  }

  lemma {:induction false} RepeatsIsEquality(buf: seq<byte>, s: nat, r: nat, len: nat)
    requires s + len <= |buf| && r + len <= |buf|
    ensures Repeats(buf, s, r, len) <==> buf[s..s + len] == buf[r..r + len]
  {
    if len != 0 {
      RepeatsIsEquality(buf, s, r, len - 1);
      var x, y := buf[s..s + len], buf[r..r + len];
      assert x == buf[s..s + (len - 1)] + [buf[s + len - 1]] && x[..len - 1] == buf[s..s + (len - 1)];
      assert y == buf[r..r + (len - 1)] + [buf[r + len - 1]] && y[..len - 1] == buf[r..r + (len - 1)];
      assert x[len - 1] == buf[s + len - 1] && y[len - 1] == buf[r + len - 1];
    }
  }

  lemma SliceOfSlice<T>(x: seq<T>, a: nat, b: nat, i: nat, j: nat)
    requires a <= b <= |x| && i <= j <= b - a
    ensures x[a..b][i..j] == x[a + i..a + j]
  {
    forall k | 0 <= k < j - i ensures x[a..b][i..j][k] == x[a + i..a + j][k] {
      assert x[a..b][i..j][k] == x[a..b][i + k] == x[a + (i + k)];
    }
  }

  lemma SliceOfPrefix<T>(x: seq<T>, n: nat, i: nat, j: nat)
    requires i <= j <= n <= |x|
    ensures x[..n][i..j] == x[i..j]
  {
    forall k | 0 <= k < j - i ensures x[..n][i..j][k] == x[i..j][k] {
      assert x[..n][i..j][k] == x[..n][i + k] == x[i + k];
    }
  }

  /** Any part of a match is a match. */
  lemma SubMatch(buf: seq<byte>, s: nat, r: nat, len: nat, limit: nat, skip: nat, len': nat)
    requires IsMatch(buf, s, r, len, limit) && skip + len' <= len
    ensures IsMatch(buf, s + skip, r + skip, len', limit)
  {
    RepeatsIsEquality(buf, s, r, len);
    RepeatsIsEquality(buf, s + skip, r + skip, len');
    SliceOfSlice(buf, s, s + len, skip, skip + len');
    SliceOfSlice(buf, r, r + len, skip, skip + len');
  }

  /** Copying a match reproduces the source. */
  lemma {:induction false} CopyOfMatch(buf: seq<byte>, s: nat, r: nat, len: nat)
    requires r < s && s + len <= |buf| && Repeats(buf, s, r, len)
    ensures CopyMatch(buf[..s], s - r, len) == buf[..s + len]
  {
    if len != 0 {
      CopyOfMatch(buf, s, r, len - 1);
    }
  }

  /** One emitted sequence extends the parse over its literals and its match. */
  lemma ExtendTiles(buf: seq<byte>, start: nat, anchor: nat, ss: seq<Sequence>, ip: nat, ref: nat, len: nat, limit: nat)
    requires Tiles(buf, start, anchor, ss) && anchor <= ip
    requires IsMatch(buf, ip, ref, len, limit) && MINMATCH <= len
    ensures Tiles(buf, start, ip + len, ss + [Sequence(buf[anchor..ip], ip - ref, len)])
  {
    var s := Sequence(buf[anchor..ip], ip - ref, len);
    assert (ss + [s])[..|ss|] == ss;
    assert buf[..anchor] + buf[anchor..ip] == buf[..ip];
    CopyOfMatch(buf, ip, ref, len);
  }

  /** A parse followed by the literals up to `end` stands for `buf[start..end]`. */
  lemma TilesContent(buf: seq<byte>, start: nat, anchor: nat, ss: seq<Sequence>, end: nat)
    requires Tiles(buf, start, anchor, ss) && anchor <= end <= |buf|
    ensures Content(buf[..start], Block(ss, buf[anchor..end])) == buf[start..end]
  {
    assert buf[..anchor][start..] + buf[anchor..end] == buf[start..end];
  }

  /** `bytes` is a block, acceptable to every decoder, that stands for
      `buf[start..start + consumed]`. */
  ghost predicate IsBlockOf(buf: seq<byte>, start: nat, consumed: nat, bytes: seq<byte>, b: Block) {
    && start + consumed <= |buf|
    && AllEncodable(b.sequences) && bytes == EncodeBlock(b)
    && ValidBlock(buf[..start], b)
    && Content(buf[..start], b) == buf[start..start + consumed]
  }

  // ----- Sizes -----

  /** LZ4_compressBound: the worst-case size of a block of `n` bytes. */
  function CompressBound(n: nat): nat {
    n + n / 255 + 16
  }

  /** Sequences never take more than the bytes they stand for plus one in 255. */
  lemma {:induction false} SequencesSize(hist: seq<byte>, ss: seq<Sequence>)
    requires ValidSequences(hist, ss) && AllEncodable(ss)
    ensures var n := |Replay(hist, ss)| - |hist|; |EncodeSequences(ss)| <= n + n / 255
  {
    if ss != [] {
      var front, s := ss[..|ss| - 1], ss[|ss| - 1];
      SequencesSize(hist, front);
      SequenceSize(|s.literals|, s.matchLength - MINMATCH);
    }
  }

  lemma SequenceSize(ll: nat, mc: nat)
    ensures 1 + |Extension(ll)| + ll + 2 + |Extension(mc)| <= (ll + mc + MINMATCH) + ll / 255
  {
  }

  /** Every block fits in the bound, whatever its parse: even the end-of-block
      conditions are not needed. */
  lemma BlockSize(hist: seq<byte>, b: Block)
    requires ValidSequences(hist, b.sequences) && AllEncodable(b.sequences)
    ensures |EncodeBlock(b)| <= CompressBound(|Content(hist, b)|)
  {
    SequencesSize(hist, b.sequences);
  }
}
