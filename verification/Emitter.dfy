/** Writing a block into an output array, in place, as both compressors do it.

    Each method advances a write position `op` and states the bytes it leaves in
    front of the new position; what lies behind `op` may be overwritten, because
    the copies work in strides of eight bytes.
 */
module Emitter {
  import opened BlockFormat

  datatype Limit = NotLimited | LimitedOutput | FillOutput

  /** How far whole strides of eight bytes can pass the end of a copy of `len`
      bytes: at least one stride is copied, even for an empty copy. */
  function Overshoot(len: nat): nat {
    if len == 0 then WILDCOPYLENGTH else WILDCOPYLENGTH - 1
  }

  /** Copies whole strides of eight bytes until `e` is reached. */
  method WildCopy8(dst: array<byte>, d0: nat, src: seq<byte>, s0: nat, e: nat)
    requires d0 <= e && e + Overshoot(e - d0) <= dst.Length
    requires s0 + (e - d0) + WILDCOPYLENGTH <= |src|
    modifies dst
    ensures dst[..e] == old(dst[..d0]) + src[s0..s0 + (e - d0)]
  {
    var d, s := d0, s0;
    while true
      invariant d0 <= d <= e && s == s0 + (d - d0)
      invariant d0 < d ==> d < e
      invariant dst[..d0] == old(dst[..d0])
      invariant forall i :: d0 <= i < d ==> dst[i] == src[s0 + (i - d0)]
      decreases e + 8 - d
    {
      forall i | 0 <= i < 8 { dst[d + i] := src[s + i]; }
      d, s := d + 8, s + 8;
      if d >= e { break; }
    }
  }

  /** Writes the extra bytes of a length that overflows its token field. */
  method WriteLength(dst: array<byte>, op: nat, n: nat) returns (op': nat)
    requires op + n / 255 + 1 <= dst.Length
    modifies dst
    ensures op' == op + n / 255 + 1
    ensures dst[..op'] == old(dst[..op]) + LengthBytes(n)
  {
    var len := n;
    op' := op;
    while len >= 255
      invariant 0 <= len <= n && op <= op' && op' + len / 255 == op + n / 255
      invariant dst[..op'] + LengthBytes(len) == old(dst[..op]) + LengthBytes(n)
      decreases len
    {
      dst[op'] := 255;
      assert dst[..op' + 1] + LengthBytes(len - 255) == dst[..op'] + LengthBytes(len);
      op', len := op' + 1, len - 255;
    }
    dst[op'] := len as byte;
    op' := op' + 1;
  }

  /** Size of an encoded sequence up to and including its literals. */
  function LiteralCost(litLength: nat): nat {
    1 + |Extension(litLength)| + litLength
  }

  /** Token with its high half set, and the literal length's extra bytes. */
  method EmitHeader(dst: array<byte>, op: nat, length: nat) returns (op': nat)
    requires op + 1 + |Extension(length)| <= dst.Length
    modifies dst
    ensures op' == op + 1 + |Extension(length)|
    ensures dst[..op'] == old(dst[..op]) + [Token(length, 0)] + Extension(length)
  {
    hide LengthBytes;
    op' := op + 1;
    if length >= RUN_MASK {
      dst[op] := 240;
      assert dst[..op'] == old(dst[..op]) + [240];
      op' := WriteLength(dst, op', length - RUN_MASK);
    } else {
      dst[op] := (16 * length) as byte;
    }
  }

  /** The literals of a sequence, with their header. */
  method EmitLiterals(src: seq<byte>, dst: array<byte>, op: nat, anchor: nat, ip: nat) returns (op': nat)
    requires anchor <= ip && ip + WILDCOPYLENGTH <= |src|
    requires op + LiteralCost(ip - anchor) + Overshoot(ip - anchor) <= dst.Length
    modifies dst
    ensures op' == op + LiteralCost(ip - anchor)
    ensures dst[..op'] == old(dst[..op]) + [Token(ip - anchor, 0)] + Extension(ip - anchor) + src[anchor..ip]
  {
    hide Extension, Token;
    op' := EmitHeader(dst, op, ip - anchor);
    WildCopy8(dst, op', src, anchor, op' + (ip - anchor));
    op' := op' + (ip - anchor);
  }

  method EmitOffset(dst: array<byte>, op: nat, offset: nat) returns (op': nat)
    requires op + 2 <= dst.Length && offset <= DISTANCE_MAX
    modifies dst
    ensures op' == op + 2
    ensures dst[..op'] == old(dst[..op]) + OffsetBytes(offset)
  {
    dst[op], dst[op + 1] := (offset % 256) as byte, (offset / 256) as byte;
    op' := op + 2;
  }

  /** Writes the extra bytes of a length two at a time while they last. */
  method WriteLengthByPairs(dst: array<byte>, op: nat, n: nat) returns (op': nat)
    requires op + n / 255 + 1 <= dst.Length
    modifies dst
    ensures op' == op + n / 255 + 1
    ensures dst[..op'] == old(dst[..op]) + LengthBytes(n)
  {
    op' := op;
    var length := n;
    while length >= 510
      invariant 0 <= length && op <= op' && op' + length / 255 == op + n / 255
      invariant dst[..op'] + LengthBytes(length) == old(dst[..op]) + LengthBytes(n)
      decreases length
    {
      TwoLengthBytes(dst[..op'], length);
      dst[op'], dst[op' + 1] := 255, 255;
      assert dst[..op' + 2] == dst[..op'] + [255, 255];
      op', length := op' + 2, length - 510;
    }
    op' := WriteLength(dst, op', length);
  }

  /** Adds a match length to the token at `token` and writes its length bytes. */
  method EmitMatchLength(dst: array<byte>, token: nat, op: nat, matchCode: nat, ghost litLength: nat) returns (op': nat)
    requires token < op && op + |Extension(matchCode)| <= dst.Length
    requires dst[token] == Token(litLength, 0)
    modifies dst
    ensures op' == op + |Extension(matchCode)|
    ensures dst[..op'] == old(dst[..op])[token := Token(litLength, matchCode)] + Extension(matchCode)
  {
    hide LengthBytes;
    if matchCode >= ML_MASK {
      dst[token] := dst[token] + 15;
      assert dst[..op] == old(dst[..op])[token := Token(litLength, matchCode)];
      op' := WriteLengthByPairs(dst, op, matchCode - ML_MASK);
    } else {
      dst[token] := dst[token] + matchCode as byte;
      op' := op;
    }
  }

  /** Writes the extra bytes of a length four at a time (LZ4_write32), then steps
      back to the last one: up to three bytes behind it are overwritten. */
  method WriteLengthByWords(dst: array<byte>, op: nat, n: nat) returns (op': nat)
    requires op + n / 255 + 1 + 3 <= dst.Length
    modifies dst
    ensures op' == op + n / 255 + 1
    ensures dst[..op'] == old(dst[..op]) + LengthBytes(n)
  {
    op' := op;
    var code := n;
    ghost var goal := dst[..op] + LengthBytes(n);
    ghost var written := dst[..op];
    WriteAllOnes(dst, op');
    while code >= 4 * 255
      invariant 0 <= code && op <= op' && op' + code / 255 == op + n / 255
      invariant |written| == op' && written + LengthBytes(code) == goal
      invariant dst[..op' + 4] == written + ALL_ONES
      decreases code
    {
      FourLengthBytes(written, code);
      written := dst[..op' + 4];
      op', code := op' + 4, code - 4 * 255;
      WriteAllOnes(dst, op');
    }
    ShortLengthBytes(written, code);
    assert dst[..op' + code / 255] == dst[..op' + 4][..op' + code / 255] == written + ALL_ONES[..code / 255];
    op' := op' + code / 255;
    dst[op'] := (code % 255) as byte;
    op' := op' + 1;
  }

  const ALL_ONES: seq<byte> := [255, 255, 255, 255]

  method WriteAllOnes(dst: array<byte>, op: nat)
    requires op + 4 <= dst.Length
    modifies dst
    ensures dst[..op + 4] == old(dst[..op]) + ALL_ONES
  {
    dst[op], dst[op + 1], dst[op + 2], dst[op + 3] := 255, 255, 255, 255;
  }

  lemma FourLengthBytes(pre: seq<byte>, n: nat)
    requires 4 * 255 <= n
    ensures pre + LengthBytes(n) == pre + ALL_ONES + LengthBytes(n - 4 * 255)
  {
    TwoLengthBytes(pre, n);
    TwoLengthBytes(pre + [255, 255], n - 510);
    assert pre + [255, 255] + [255, 255] == pre + ALL_ONES;
  }

  lemma ShortLengthBytes(pre: seq<byte>, n: nat)
    requires n < 4 * 255
    ensures pre + LengthBytes(n) == pre + ALL_ONES[..n / 255] + [(n % 255) as byte]
    decreases n
  {
    if n >= 255 {
      ShortLengthBytes(pre + [255], n - 255);
      assert [255] + ALL_ONES[..n / 255 - 1] == ALL_ONES[..n / 255];
      assert pre + [255] + ALL_ONES[..n / 255 - 1] == pre + ALL_ONES[..n / 255];
      assert LengthBytes(n) == [255] + LengthBytes(n - 255);
      assert pre + LengthBytes(n) == pre + [255] + LengthBytes(n - 255);
    }
  }

  /** The fast compressor's way of adding a match length. */
  method EmitMatchLengthByWords(dst: array<byte>, token: nat, op: nat, matchCode: nat, ghost litLength: nat) returns (op': nat)
    requires token < op && op + |Extension(matchCode)| + 3 <= dst.Length
    requires dst[token] == Token(litLength, 0)
    modifies dst
    ensures op' == op + |Extension(matchCode)|
    ensures dst[..op'] == old(dst[..op])[token := Token(litLength, matchCode)] + Extension(matchCode)
  {
    hide LengthBytes;
    if matchCode >= ML_MASK {
      dst[token] := dst[token] + 15;
      assert dst[..op] == old(dst[..op])[token := Token(litLength, matchCode)];
      op' := WriteLengthByWords(dst, op, matchCode - ML_MASK);
    } else {
      dst[token] := dst[token] + matchCode as byte;
      op' := op;
    }
  }

  lemma TwoLengthBytes(pre: seq<byte>, n: nat)
    requires 510 <= n
    ensures pre + LengthBytes(n) == pre + [255, 255] + LengthBytes(n - 510)
  {
    assert LengthBytes(n) == [255] + ([255] + LengthBytes(n - 510));
  }

  lemma PatchToken(pre: seq<byte>, s: Sequence)
    requires Encodable(s)
    ensures (pre + [Token(|s.literals|, 0)] + Extension(|s.literals|) + s.literals + OffsetBytes(s.offset))
              [|pre| := Token(|s.literals|, s.matchLength - MINMATCH)] + Extension(s.matchLength - MINMATCH)
         == pre + EncodeSequence(s)
  {
    hide Token, Extension, OffsetBytes;
    var body := Extension(|s.literals|) + s.literals + OffsetBytes(s.offset);
    var t0, t1 := [Token(|s.literals|, 0)], [Token(|s.literals|, s.matchLength - MINMATCH)];
    assert pre + t0 + Extension(|s.literals|) + s.literals + OffsetBytes(s.offset) == pre + t0 + body;
    assert (pre + t0 + body)[|pre| := t1[0]] == pre + t1 + body;
    assert EncodeSequence(s) == t1 + body + Extension(s.matchLength - MINMATCH);
  }

  /** Size of an encoded sequence. */
  function SequenceCost(litLength: nat, matchLength: nat): nat
    requires MINMATCH <= matchLength
  {
    LiteralCost(litLength) + 2 + |Extension(matchLength - MINMATCH)|
  }

  /** The sequence does not fit below `oend` together with five last literals. */
  predicate Overflows(op: nat, litLength: nat, matchLength: nat, oend: int)
    requires MINMATCH <= matchLength
  {
    || op + 1 + litLength / 255 + litLength + (2 + 1 + LASTLITERALS) > oend
    || op + LiteralCost(litLength) + 2 + (matchLength - MINMATCH) / 255 + (1 + LASTLITERALS) > oend
  }

  method EncodeSequenceHC(src: seq<byte>, dst: array<byte>, op: nat, anchor: nat, ip: nat,
                          matchLength: nat, ref: nat, limit: Limit, oend: int)
    returns (overflow: bool, op': nat)
    requires anchor <= ip && ip + WILDCOPYLENGTH <= |src|
    requires MINMATCH <= matchLength && ref < ip && ip - ref <= DISTANCE_MAX
    requires limit != NotLimited ==> oend <= dst.Length
    requires limit == NotLimited ==>
               && op + LiteralCost(ip - anchor) + Overshoot(ip - anchor) <= dst.Length
               && op + SequenceCost(ip - anchor, matchLength) <= dst.Length
    modifies dst
    ensures overflow == (limit != NotLimited && Overflows(op, ip - anchor, matchLength, oend))
    ensures op <= dst.Length ==> dst[..op] == old(dst[..op])
    ensures !overflow ==> op' == op + SequenceCost(ip - anchor, matchLength) <= dst.Length
    ensures !overflow ==> dst[..op'] == old(dst[..op]) + EncodeSequence(Sequence(src[anchor..ip], ip - ref, matchLength))
  {
    hide EncodeSequence, Extension, OffsetBytes, Token;
    var length := ip - anchor;
    op' := op + 1;
    if limit != NotLimited && op' + length / 255 + length + (2 + 1 + LASTLITERALS) > oend {
      return true, op';
    }
    op' := EmitLiterals(src, dst, op, anchor, ip);
    op' := EmitOffset(dst, op', ip - ref);
    var code := matchLength - MINMATCH;
    if limit != NotLimited && op' + code / 255 + (1 + LASTLITERALS) > oend {
      return true, op';
    }
    ghost var s := Sequence(src[anchor..ip], ip - ref, matchLength);
    ghost var head := dst[..op'];
    assert head == old(dst[..op]) + [Token(length, 0)] + Extension(length) + s.literals + OffsetBytes(s.offset);
    assert dst[op] == head[op] == Token(length, 0);
    op' := EmitMatchLength(dst, op, op', code, length);
    PatchToken(old(dst[..op]), s);
    overflow := false;
  }

  /** Size of a final run of `n` literals. */
  function LastCost(n: nat): nat {
    1 + |Extension(n)| + n
  }

  /** The number of final literals that fit in `room` bytes, their header included. */
  function LastThatFits(room: nat): (n: nat)
    requires 1 <= room
    ensures LastCost(n) <= room < LastCost(n + 1)
    ensures room <= 15 ==> n == room - 1
    ensures 15 <= room ==> 14 <= n
  {
    var l := room - 1;
    assert (l + 256 - RUN_MASK) == 256 * ((l + 256 - RUN_MASK) / 256) + (l + 256 - RUN_MASK) % 256;
    l - (l + 256 - RUN_MASK) / 256
  }

  lemma LastThatFitsIsLess(room: nat, n: nat)
    requires 1 <= room < LastCost(n)
    ensures LastThatFits(room) <= n
  {
    var l := room - 1;
    assert l < n + |Extension(n)|;
  }

  /** A final run of literals, copied exactly. */
  method EmitRun(src: seq<byte>, dst: array<byte>, op: nat, anchor: nat, lastRun: nat) returns (op': nat)
    requires anchor + lastRun <= |src| && op + LastCost(lastRun) <= dst.Length
    modifies dst
    ensures op' == op + LastCost(lastRun)
    ensures dst[..op'] == old(dst[..op]) + EncodeLast(src[anchor..anchor + lastRun])
  {
    hide Extension, Token;
    op' := EmitHeader(dst, op, lastRun);
    ghost var head := dst[..op'];
    forall i | 0 <= i < lastRun { dst[op' + i] := src[anchor + i]; }
    assert dst[..op' + lastRun] == head + src[anchor..anchor + lastRun];
    op' := op' + lastRun;
  }

  /** The end of a block.  Without enough room, a limited compressor gives up and a
      filling one shortens the run. */
  method EmitLast(src: seq<byte>, dst: array<byte>, op: nat, anchor: nat, limit: Limit, oend: nat)
    returns (ok: bool, op': nat, lastRun: nat)
    requires anchor <= |src| && oend <= dst.Length
    requires limit == NotLimited ==> op + LastCost(|src| - anchor) <= dst.Length
    requires limit == FillOutput ==> op < oend
    modifies dst
    ensures ok == !(limit == LimitedOutput && op + LastCost(|src| - anchor) > oend)
    ensures ok ==> lastRun == if limit == FillOutput && op + LastCost(|src| - anchor) > oend
                              then LastThatFits(oend - op) else |src| - anchor
    ensures ok ==> op' == op + LastCost(lastRun) && (limit != NotLimited ==> op' <= oend) && op' <= dst.Length
    ensures ok ==> anchor + lastRun <= |src|
    ensures ok ==> dst[..op'] == old(dst[..op]) + EncodeLast(src[anchor..anchor + lastRun])
  {
    hide EncodeLast;
    lastRun := |src| - anchor;
    op' := op;
    if limit != NotLimited && op + lastRun + 1 + (lastRun + 255 - RUN_MASK) / 255 > oend {
      if limit == LimitedOutput { return false, op, 0; }
      LastThatFitsIsLess(oend - op, lastRun);
      lastRun := oend - op - 1;
      lastRun := lastRun - (lastRun + 256 - RUN_MASK) / 256;
    }
    op' := EmitRun(src, dst, op, anchor, lastRun);
    ok := true;
  }
}
