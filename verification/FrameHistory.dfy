/** Linked blocks refer to at most the last 64 KB of content: a memory region that ends
    with these bytes serves as their history. */
module FrameHistory {
  import opened Basics
  import opened BlockFormat
  import opened DecoderSpec
  import opened FrameFormat

  /** `region` ends with the last 64 KB of `out`, or with all of it. */
  predicate Covers(region: seq<byte>, out: seq<byte>) {
    var n := Min(KB64, |out|);
    n <= |region| && Last(region, n) == Last(out, n)
  }

  /** New content extends both. */
  lemma CoversAppend(region: seq<byte>, out: seq<byte>, x: seq<byte>)
    requires Covers(region, out)
    ensures Covers(region + x, out + x)
  {
    var n, m := Min(KB64, |out|), Min(KB64, |out| + |x|);
    if m <= |x| {
      assert Last(region + x, m) == Last(x, m) == Last(out + x, m);
    } else {
      var k := m - |x|;
      assert Last(region + x, m) == Last(region, k) + x;
      assert Last(out + x, m) == Last(out, k) + x;
      assert Last(region, k) == Last(Last(region, n), k);
      assert Last(out, k) == Last(Last(out, n), k);
    }
  }

  /** The beginning of a region may be dropped as long as enough is left. */
  lemma CoversTail(region: seq<byte>, out: seq<byte>, k: nat)
    requires Covers(region, out) && Min(KB64, |out|) <= k <= |region|
    ensures Covers(Last(region, k), out)
  {
    var n := Min(KB64, |out|);
    assert Last(Last(region, k), n) == Last(region, n);
  }

  lemma CoversSelf(a: seq<byte>, region: seq<byte>)
    requires a == [] || KB64 <= |region|
    ensures Covers(region, a + region)
  {
    var n := Min(KB64, |a + region|);
    assert Last(a + region, n) == Last(region, n);
  }

  // ----- Blocks -----

  lemma Behind(a: nat, s: seq<byte>, x: seq<byte>)
    requires a <= |s|
    ensures (s + x)[a..] == s[a..] + x
  {
  }

  lemma {:induction false} CopyMatchCovers(region: seq<byte>, out: seq<byte>, offset: nat, len: nat)
    requires Covers(region, out) && 1 <= offset <= DISTANCE_MAX && offset <= |out|
    ensures Covers(CopyMatch(region, offset, len), CopyMatch(out, offset, len))
    ensures CopyMatch(region, offset, len)[|region|..] == CopyMatch(out, offset, len)[|out|..]
  {
    hide Covers;
    SameByte(region, out, offset);
    if len != 0 {
      CopyMatchCovers(region, out, offset, len - 1);
      var r, o := CopyMatch(region, offset, len - 1), CopyMatch(out, offset, len - 1);
      SameByte(r, o, offset);
      var x := [o[|o| - offset]];
      assert CopyMatch(region, offset, len) == r + x && CopyMatch(out, offset, len) == o + x;
      hide CopyMatch;
      CoversAppend(r, o, x);
      Behind(|region|, r, x);
      Behind(|out|, o, x);
    }
  }

  lemma SameByte(region: seq<byte>, out: seq<byte>, offset: nat)
    requires Covers(region, out) && 1 <= offset <= DISTANCE_MAX && offset <= |out|
    ensures offset <= |region| && region[|region| - offset] == out[|out| - offset]
  {
    var n := Min(KB64, |out|);
    assert Last(region, n)[n - offset] == Last(out, n)[n - offset];
  }

  lemma {:induction false} ReplayCovers(region: seq<byte>, out: seq<byte>, ss: seq<Sequence>)
    requires Covers(region, out) && ValidSequences(out, ss)
    ensures ValidSequences(region, ss)
    ensures Covers(Replay(region, ss), Replay(out, ss))
    ensures Replay(region, ss)[|region|..] == Replay(out, ss)[|out|..]
  {
    if ss != [] {
      var front, s := ss[..|ss| - 1], ss[|ss| - 1];
      ReplayCovers(region, out, front);
      var r, o := Replay(region, front), Replay(out, front);
      SequenceCovers(region, out, r, o, s);
    }
  }

  lemma SequenceCovers(region: seq<byte>, out: seq<byte>, r: seq<byte>, o: seq<byte>, s: Sequence)
    requires |region| <= |r| && |out| <= |o| && Covers(r, o) && r[|region|..] == o[|out|..]
    requires 1 <= s.offset <= DISTANCE_MAX && s.offset <= |o| + |s.literals|
    ensures s.offset <= |r| + |s.literals|
    ensures var r', o' := CopyMatch(r + s.literals, s.offset, s.matchLength), CopyMatch(o + s.literals, s.offset, s.matchLength);
            Covers(r', o') && r'[|region|..] == o'[|out|..]
  {
    hide Covers, CopyMatch;
    var rl, ol := r + s.literals, o + s.literals;
    CoversAppend(r, o, s.literals);
    SameByte(rl, ol, s.offset);
    CopyMatchCovers(rl, ol, s.offset, s.matchLength);
    var r', o' := CopyMatch(rl, s.offset, s.matchLength), CopyMatch(ol, s.offset, s.matchLength);
    var added := r'[|rl|..];
    assert r' == rl + added && o' == ol + added;
    Behind(|region|, r, s.literals);
    Behind(|region|, rl, added);
    Behind(|out|, o, s.literals);
    Behind(|out|, ol, added);
  }

  /** A valid block behind `out` is a valid block with the same content behind every
      region that covers `out`. */
  lemma DecodableCovers(bytes: seq<byte>, region: seq<byte>, out: seq<byte>)
    requires Covers(region, out) && Decodable(bytes, out)
    ensures Decodable(bytes, region)
    ensures BlockContent(Packed(bytes), region) == BlockContent(Packed(bytes), out)
    ensures var b := ParseBlock(bytes).value;
            Output(region, b) == region + BlockContent(Packed(bytes), out)
  {
    hide ParseBlock, EncodeBlock, Covers;
    var b := ParseBlock(bytes).value;
    ReplayCovers(region, out, b.sequences);
    assert Replay(region, b.sequences) == region + Replay(region, b.sequences)[|region|..];
  }
}
