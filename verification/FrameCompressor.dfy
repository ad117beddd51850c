/** The buffering frame compressor: LZ4F_compressBegin, LZ4F_compressUpdate, LZ4F_flush,
    LZ4F_compressEnd and LZ4F_compressFrame.

    Compressed mode, levels below LZ4HC_CLEVEL_MIN, no dictionary.
 */
module FrameCompressor {
  import opened Basics
  import opened BlockFormat
  import opened FrameBuffers
  import opened FrameFormat
  import opened FrameHistory
  import opened FrameBounds
  import opened FrameBlockWriter
  import opened FrameBuffering
  import FrameDict
  import FastStream
  import SourceParse
  import Xxh32

  /** The position behind what was written, or an error. */
  datatype Result = Done(op: nat) | TooSmall | Uninitialized | FrameSizeWrong

  // ----- Values -----

  /** In the middle of a frame. */
  ghost predicate InFrame(s: Fields, g: Written, m: seq<byte>) {
    s.open && Held(s, g, m) && RoomForBlock(s) && s.tmpIn + s.tmpInSize <= |m| && g.done + Buffered(s, m) == g.input
  }

  /** The content checksum and the counted input. */
  predicate Hashed(s: Fields, g: Written, seed: nat, data: seq<byte>) {
    && (s.prefs.contentChecksum ==> seed == 0 && data == g.input)
    && (s.prefs.contentSize != 0 ==> s.totalInSize == |g.input|)
  }

  /** The preferences in force: a default block size for none. */
  function WithDefault(p: Prefs): Prefs {
    if p.blockSizeID == 0 then p.(blockSizeID := 4) else p
  }

  /** The buffer that a frame needs. */
  function RequiredBuffSize(p: Prefs): nat
    requires 4 <= p.blockSizeID <= 7
  {
    if p.autoFlush then (if p.linked then KB64 else 0)
    else BlockSizeOf(p.blockSizeID) + if p.linked then FrameDict.KB128 else 0
  }

  /** The context at the beginning of a frame. */
  function Started(s: Fields, p: Prefs): Fields
    requires 4 <= p.blockSizeID <= 7
  {
    Fields(true, p, BlockSizeOf(p.blockSizeID),
           if s.maxBufferSize < RequiredBuffSize(p) then RequiredBuffSize(p) else s.maxBufferSize,
           0, 0, if p.contentSize != 0 then 0 else s.totalInSize)
  }

  function Beginning(p: Prefs, header: seq<byte>): Written {
    Written(InfoOf(p), [], [], [], header)
  }

  lemma InfoOfPrefs(p: Prefs)
    requires PrefsOk(p) && 4 <= p.blockSizeID <= 7
    ensures InfoOk(InfoOf(p))
  {
  }

  lemma StartsFrame(s: Fields, p: Prefs, m: seq<byte>, seed: nat)
    requires PrefsOk(p) && 4 <= p.blockSizeID <= 7 && s.maxBufferSize <= BUFFER_END <= |m| && seed == 0
    ensures InfoOk(InfoOf(p))
    ensures var g := Beginning(p, EncodeHeader(InfoOf(p))); InFrame(Started(s, p), g, m) && Hashed(Started(s, p), g, seed, [])
    ensures Started(s, p).prefs == p && Started(s, p).tmpIn == 0 && Beginning(p, EncodeHeader(InfoOf(p))).done == []
  {
    hide EncodeHeader;
    InfoOfPrefs(p);
    BlockSizeRange(p.blockSizeID);
    var info := InfoOf(p);
    assert EncodeHeader(info) == EncodeHeader(info) + EncodeBlocks(info, []);
  }

  lemma NothingMade(hash: FastStream.Hash, size: nat, p: Prefs, header: seq<byte>)
    ensures MadeOk(hash, size, p.level, Beginning(p, header))
  {
  }

  lemma BlockSizeRange(id: nat)
    requires 4 <= id <= 7
    ensures BlockSizeOf(id) + FrameDict.KB128 <= BUFFER_END
  {
  }

  class Cctx {
    const mem: array<byte>
    const stream: FastStream.Stream
    const xxh: Xxh32.State
    const hash: FastStream.Hash
    var fields: Fields
    ghost var written: Written

    /** A context between frames, or one to be started again. */
    ghost predicate Ready()
      reads this, stream, stream.hashTable, xxh, xxh.mem
    {
      && xxh.Valid() && stream.Ready(false) && FastStream.HashOk(hash, stream.hashTable.Length)
      && mem != xxh.mem && fields.maxBufferSize <= BUFFER_END < mem.Length && PrefsOk(fields.prefs)
    }

    lemma ReadyParts()
      ensures Ready() <==>
        && xxh.Valid() && stream.Ready(false) && FastStream.HashOk(hash, stream.hashTable.Length)
        && mem != xxh.mem && fields.maxBufferSize <= BUFFER_END < mem.Length && PrefsOk(fields.prefs)
    {
    }

    /** In the middle of a frame, with the memory `m`. */
    ghost predicate Open(m: seq<byte>)
      reads this, stream, stream.hashTable, xxh, xxh.mem
    {
      && xxh.Valid() && mem != xxh.mem && BUFFER_END < mem.Length
      && InFrame(fields, written, m) && Hashed(fields, written, xxh.seed, xxh.data)
      && StreamOk(stream, hash, fields.prefs.linked, m, written.done, fields.tmpIn)
      && MadeOk(hash, stream.hashTable.Length, fields.prefs.level, written)
    }

    lemma OpenParts(m: seq<byte>)
      ensures Open(m) <==>
        && xxh.Valid() && mem != xxh.mem && BUFFER_END < mem.Length
        && InFrame(fields, written, m) && Hashed(fields, written, xxh.seed, xxh.data)
        && StreamOk(stream, hash, fields.prefs.linked, m, written.done, fields.tmpIn)
        && MadeOk(hash, stream.hashTable.Length, fields.prefs.level, written)
    {
    }

    /** All input is compressed, but for less than a block that is buffered; without
        autoFlush there is room for all of the block. */
    lemma OpenMeans(m: seq<byte>)
      requires Open(m)
      ensures BlocksOk(written.info, [], written.blocks) && fields.tmpInSize < fields.maxBlockSize
      ensures fields.tmpIn + fields.tmpInSize <= |m|
      ensures BlocksOutput(written.info, [], written.blocks) + m[fields.tmpIn..fields.tmpIn + fields.tmpInSize] == written.input
      ensures fields.prefs.autoFlush ==> fields.tmpInSize == 0
      ensures !fields.prefs.autoFlush ==> fields.tmpIn + fields.maxBlockSize <= fields.maxBufferSize <= BUFFER_END
    {
      hide StreamOk, MadeOk, BlocksOk, BlocksOutput, EncodeBlocks, EncodeHeader, BlockSizeOf, Xxh32.State.Valid;
    }

    lemma OwnParts()
      ensures OwnHistory() <==> (fields.prefs.linked ==> Own(stream.dictionary, stream.dictSize, fields.tmpIn))
    {
    }

    /** Nothing outside the buffer is needed. */
    ghost predicate OwnHistory()
      reads this, stream
    {
      fields.prefs.linked ==> Own(stream.dictionary, stream.dictSize, fields.tmpIn)
    }

    /** LZ4F_createCompressionContext, with the memory that the context and its callers
        share. */
    constructor (mem: array<byte>, hash: FastStream.Hash, size: nat)
      requires BUFFER_END < mem.Length && FastStream.HashOk(hash, size)
      ensures Ready() && this.mem == mem && this.hash == hash && !fields.open
      ensures fresh(stream) && fresh(stream.hashTable) && fresh(xxh) && fresh(xxh.mem) && stream.hashTable.Length == size
    {
      hide Xxh32.State.Valid, FastStream.Stream.Valid;
      this.mem, this.hash := mem, hash;
      stream := new FastStream.Stream(size);
      xxh := new Xxh32.State(0);
      fields := Fields(false, Prefs(0, false, false, false, 0, 0, 0, false), 0, 0, 0, 0, 0);
      written := Written(Info(false, false, false, None, None, 4), [], [], [], []);
    }

    /** LZ4F_compressBegin: the header is written. */
    method CompressBegin(dst: array<byte>, op: nat, dstEnd: nat, p: Prefs) returns (r: Result)
      requires Ready() && PrefsOk(p) && op <= dstEnd <= dst.Length && dst != mem && dst != xxh.mem
      modifies this, stream, stream.hashTable, xxh, dst
      ensures r.TooSmall? <==> dstEnd - op < HEADER_SIZE_MAX
      ensures r.Done? || r.TooSmall?
      ensures r.TooSmall? ==> dst[..] == old(dst[..])
      ensures r.Done? ==>
        && Open(mem[..]) && OwnHistory() && fields == Started(old(fields), WithDefault(p))
        && op <= r.op <= op + HEADER_SIZE_MAX && SameOutside(old(dst[..]), dst[..], op, r.op)
        && written == Beginning(WithDefault(p), dst[..][op..r.op])
    {
      hide FastStream.Stream.Ready, Xxh32.State.Valid, InFrame, Hashed, EncodeHeader, Started, StreamOk, SameOutside,
           InfoOf, WithDefault, Own, Beginning, MadeOk;
      if dstEnd - op < HEADER_SIZE_MAX { return TooSmall; }
      var prefs := WithDefault(p);
      DefaultPrefs(p);
      InfoOfPrefs(prefs);
      var header := EncodeHeader(InfoOf(prefs));
      WriteOut(dst, op, header);
      r := Done(op + |header|);
      xxh.Reset(0);
      if prefs.linked {
        stream.ResetFast();
      }
      NewStream(stream, hash, prefs.linked, mem[..]);
      StartsFrame(fields, prefs, mem[..], 0);
      NothingMade(hash, stream.hashTable.Length, prefs, header);
      fields, written := Started(fields, prefs), Beginning(prefs, header);
    }

    /** LZ4F_compressUpdate: all of the source is compressed or buffered.  With a stable
        source the history may stay where the caller has it. */
    method CompressUpdate(srcAt: nat, srcSize: nat, dst: array<byte>, op: nat, dstEnd: nat, stableSrc: bool) returns (r: Result)
      requires (if fields.open then Open(mem[..]) else Ready()) && PrefsOk(fields.prefs)
      requires BUFFER_END < srcAt && srcAt + srcSize <= mem.Length
      requires op <= dstEnd <= dst.Length && dst != mem && dst != xxh.mem
      requires fields.open ==> Countable(fields.tmpInSize + srcSize, GetBlockSize(fields.prefs.blockSizeID), fields.prefs.autoFlush)
      modifies this, stream, stream.hashTable, xxh, xxh.mem, mem, dst
      ensures r.Uninitialized? <==> !old(fields.open)
      ensures r.TooSmall? <==> old(fields.open) && dstEnd - op < BoundInternal(srcSize, old(fields.prefs), old(fields.tmpInSize))
      ensures !r.FrameSizeWrong?
      ensures !r.Done? ==> mem[..] == old(mem[..]) && dst[..] == old(dst[..]) && fields == old(fields) && written == old(written)
      ensures r.Done? ==>
        && Open(mem[..]) && SameContext(old(fields), fields.(totalInSize := old(fields.totalInSize)))
        && written.info == old(written.info) && Extended(old(written.input), written.input, old(mem[..]), srcAt, srcAt + srcSize)
        && Sent(old(written.sent), written.sent, old(dst[..]), dst[..], op, r.op) && r.op + FrameEndSize(fields.prefs) <= dstEnd
        && SameOutside(old(mem[..]), mem[..], 0, BUFFER_END) && (old(OwnHistory()) && !stableSrc ==> OwnHistory())
    {
      hide *;
      if !fields.open { return Uninitialized; }
      if dstEnd - op < BoundInternal(srcSize, fields.prefs, fields.tmpInSize) { return TooSmall; }
      ghost var m, seed, data, own := mem[..], xxh.seed, xxh.data, OwnHistory();
      var src := mem[srcAt..srcAt + srcSize];
      ghost var goal := written.input + src;
      OpenParts(m);
      OwnParts();
      assert src == m[srcAt..srcAt + srcSize];
      CallStarts(fields, written, m, srcAt, srcSize, goal, op, dstEnd);
      var s', op';
      ghost var g';
      s', op', g' := Consume(stream, hash, mem, fields, srcAt, srcAt + srcSize, dst, op,
                             dstEnd - FrameEndSize(fields.prefs), stableSrc, written, goal);
      if fields.prefs.contentChecksum {
        xxh.Update(src);
      }
      CallEnds(fields, s', written, g', mem[..], srcAt + srcSize, goal, seed, data, src);
      GoesOn(written.input, src, goal, m, srcAt, srcAt + srcSize);
      MadeSoFar(hash, stream.hashTable.Length, s'.prefs.level, g', g'.(input := goal));
      fields, written := Counted(s', srcSize), g'.(input := goal);
      r := Done(op');
      OpenParts(mem[..]);
      OwnParts();
    }

    /** LZ4F_flush: the buffered input is compressed at once. */
    method Flush(dst: array<byte>, op: nat, dstEnd: nat) returns (r: Result)
      requires fields.open ==> Open(mem[..])
      requires op <= dstEnd <= dst.Length && dst != mem && dst != xxh.mem
      modifies this, stream, stream.hashTable, mem, dst
      ensures r.Uninitialized? <==> !old(fields.open) && old(fields.tmpInSize) != 0
      ensures r.TooSmall? <==> old(fields.open) && old(fields.tmpInSize) != 0 && dstEnd - op < old(fields.tmpInSize) + BHSIZE + BFSIZE
      ensures !r.FrameSizeWrong?
      ensures !r.Done? ==> mem[..] == old(mem[..]) && dst[..] == old(dst[..]) && fields == old(fields) && written == old(written)
      ensures old(fields.open) ==> Open(mem[..])
      ensures r.Done? && old(fields.open) ==>
        && SameContext(old(fields), fields) && fields.tmpInSize == 0 && SameFrame(old(written), written)
        && Sent(old(written.sent), written.sent, old(dst[..]), dst[..], op, r.op)
        && r.op <= op + (if old(fields.tmpInSize) == 0 then 0 else old(fields.tmpInSize) + BHSIZE + BFSIZE)
        && SameOutside(old(mem[..]), mem[..], 0, BUFFER_END) && (old(OwnHistory()) ==> OwnHistory())
    {
      hide *;
      if fields.tmpInSize == 0 {
        NothingSent(written, dst[..], op);
        SameAll(mem[..], 0, BUFFER_END);
        ContextFields(fields, fields);
        return Done(op);
      }
      if !fields.open { return Uninitialized; }
      if dstEnd - op < fields.tmpInSize + BHSIZE + BFSIZE { return TooSmall; }
      ghost var m := mem[..];
      OpenParts(m);
      InFrameParts(fields, written, m);
      CrcSize(fields.prefs);
      var s', op';
      ghost var g';
      s', op', g' := FlushBuffer(stream, hash, mem, fields, dst, op, written);
      Flushed(fields, s', written, g', m, mem[..], xxh.seed, xxh.data);
      fields, written := s', g';
      r := Done(op');
      OpenParts(mem[..]);
      OwnParts();
    }

    /** The end mark and the content checksum. */
    method WriteSuffix(dst: array<byte>, op: nat, dstEnd: nat) returns (r: Result)
      requires xxh.Valid() && op <= dstEnd <= dst.Length && dst != xxh.mem
      modifies dst
      ensures r.Done? || r.TooSmall?
      ensures r.TooSmall? <==> dstEnd - op < FrameEndSize(fields.prefs)
      ensures r.Done? ==>
        && op <= r.op <= dstEnd && SameOutside(old(dst[..]), dst[..], op, r.op)
        && dst[..][op..r.op] == Suffix(fields.prefs.contentChecksum, xxh.data, xxh.seed)
    {
      hide Xxh32.State.Valid, Xxh32.Hash, WriteLE, SameOutside;
      if dstEnd - op < 4 { return TooSmall; }
      ghost var d := dst[..];
      WriteOut(dst, op, WriteLE(0, 4));
      ghost var d1 := dst[..];
      r := Done(op + 4);
      assert d1[op..op + 4] + [] == d1[op..op + 4];
      if fields.prefs.contentChecksum {
        var sum := xxh.Digest();
        if dstEnd - op < 8 { return TooSmall; }
        WriteOut(dst, op + 4, WriteLE(sum, 4));
        Wrote(d, d1, dst[..], op, op + 4, op + 8);
        r := Done(op + 8);
      }
    }

    /** LZ4F_compressEnd: the bytes written since LZ4F_compressBegin become a frame whose
        content is all the input. */
    method CompressEnd(dst: array<byte>, op: nat, dstEnd: nat) returns (r: Result)
      requires Open(mem[..]) && op <= dstEnd <= dst.Length && dst != mem && dst != xxh.mem
      modifies this, stream, stream.hashTable, mem, dst
      ensures !r.Uninitialized? && fields.prefs == old(fields.prefs) && written.input == old(written.input) && written.info == old(written.info)
      ensures r.TooSmall? ==> Open(mem[..]) && dstEnd - op < EndSize(old(fields))
      ensures !r.TooSmall? ==> !fields.open && Ready()
      ensures r.FrameSizeWrong? <==> !r.TooSmall? && fields.prefs.contentSize != 0 && fields.prefs.contentSize != |written.input|
      ensures r.Done? ==>
        && IsFrame(written, Frame(written.info, written.blocks)) && r.op <= dstEnd
        && AllMade(hash, stream.hashTable.Length, fields.prefs.level, written.info, written.blocks)
        && Sent(old(written.sent), written.sent, old(dst[..]), dst[..], op, r.op)
      ensures SameOutside(old(mem[..]), mem[..], 0, BUFFER_END)
    {
      hide *;
      ghost var s0, sent0, m, d := fields, written.sent, mem[..], dst[..];
      OpenParts(m);
      InFrameParts(fields, written, m);
      EndSizes(fields);
      r := Flush(dst, op, dstEnd);
      if !r.Done? {
        SameAll(m, 0, BUFFER_END);
        return;
      }
      ghost var d1, op1, m1 := dst[..], r.op, mem[..];
      OpenParts(m1);
      InFrameParts(fields, written, m1);
      ContextFields(s0, fields);
      FrameFields(old(written), written);
      r := WriteSuffix(dst, r.op, dstEnd);
      assert mem[..] == m1;
      if r.TooSmall? {
        OpenParts(m1);
        return;
      }
      FrameEnds(fields, written, m1, xxh.seed, xxh.data);
      SuffixSent(sent0, written.sent, d, d1, dst[..], op, op1, r.op);
      var wrong := fields.prefs.contentSize != 0 && fields.prefs.contentSize != fields.totalInSize;
      HeldBounds(fields, written, m1);
      fields := fields.(open := false, maxBufferSize := 0);
      MadeSoFar(hash, stream.hashTable.Length, fields.prefs.level, written, written.(sent := written.sent + dst[..][op1..r.op]));
      written := written.(sent := written.sent + dst[..][op1..r.op]);
      StreamParts(stream, hash, fields.prefs.linked, m1, written.done, fields.tmpIn);
      ReadyParts();
      if wrong { r := FrameSizeWrong; }
    }

    /** The caller may use its memory for other things. */
    lemma OpenElsewhere(m: seq<byte>, m': seq<byte>)
      requires Open(m) && OwnHistory() && |m'| == |m| && BUFFER_END <= |m| && m'[..BUFFER_END] == m[..BUFFER_END]
      ensures Open(m')
    {
      hide *;
      OpenParts(m);
      OpenParts(m');
      OwnParts();
      InFrameElsewhere(fields, written, m, m');
      HistoryStays(stream, hash, fields.prefs.linked, m, m', written.done, fields.tmpIn);
    }
  }

  lemma MadeSoFar(hash: FastStream.Hash, size: nat, level: int, g: Written, g': Written)
    requires MadeOk(hash, size, level, g) && g'.info == g.info && g'.blocks == g.blocks
    ensures MadeOk(hash, size, level, g') && AllMade(hash, size, level, g'.info, g'.blocks)
  {
  }

  function Suffix(contentChecksum: bool, data: seq<byte>, seed: Xxh32.U32): seq<byte> {
    WriteLE(0, 4) + if contentChecksum then WriteLE(Xxh32.Hash(data, seed), 4) else []
  }

  /** What LZ4F_compressEnd may write. */
  function EndSize(s: Fields): nat {
    (if s.tmpInSize == 0 then 0 else s.tmpInSize + BHSIZE + BFSIZE) + FrameEndSize(s.prefs)
  }

  /** The bytes written are the frame `f`, and its content is the input. */
  ghost predicate IsFrame(g: Written, f: Frame) {
    FrameOk(f) && g.sent == EncodeFrame(f) && FrameContent(f) == g.input
  }

  lemma EndSizes(s: Fields)
    ensures BHSIZE <= FrameEndSize(s.prefs)
    ensures EndSize(s) == (if s.tmpInSize == 0 then 0 else s.tmpInSize + BHSIZE + BFSIZE) + FrameEndSize(s.prefs)
  {
  }

  lemma FrameFields(g: Written, g': Written)
    ensures SameFrame(g, g') <==> g'.info == g.info && g'.input == g.input
  {
  }

  /** With its end, the frame is complete. */
  lemma FrameEnds(s: Fields, g: Written, m: seq<byte>, seed: Xxh32.U32, data: seq<byte>)
    requires InFrame(s, g, m) && s.tmpInSize == 0 && Hashed(s, g, seed, data)
    ensures (s.prefs.contentSize != 0 ==> s.totalInSize == |g.input|) && g.info == InfoOf(s.prefs) && PrefsOk(s.prefs)
    ensures s.prefs.contentSize == 0 || s.prefs.contentSize == |g.input| ==>
      IsFrame(g.(sent := g.sent + Suffix(s.prefs.contentChecksum, data, seed)), Frame(g.info, g.blocks))
  {
    hide WriteLE, Xxh32.Hash, EncodeHeader, EncodeBlocks, BlocksOk, BlockSizeOf, BlocksOutput;
    NothingBuffered(s, m, g.done);
  }

  lemma SuffixSent(sent0: seq<byte>, sent: seq<byte>, d: seq<byte>, d1: seq<byte>, d2: seq<byte>, op: nat, op1: nat, op2: nat)
    requires Sent(sent0, sent, d, d1, op, op1) && SameOutside(d1, d2, op1, op2) && op1 <= op2 <= |d2|
    ensures Sent(sent0, sent + d2[op1..op2], d, d2, op, op2)
  {
    SentMore(sent0, sent, sent + d2[op1..op2], d, d1, d2, op, op1, op2);
  }

  lemma StreamParts(stream: FastStream.Stream, hash: FastStream.Hash, linked: bool, m: seq<byte>, done: seq<byte>, tmpIn: nat)
    requires StreamOk(stream, hash, linked, m, done, tmpIn)
    ensures stream.Ready(false) && FastStream.HashOk(hash, stream.hashTable.Length)
  {
    hide FastStream.Stream.Valid;
  }

  lemma InFrameElsewhere(s: Fields, g: Written, m: seq<byte>, m': seq<byte>)
    requires InFrame(s, g, m) && |m'| == |m| && BUFFER_END <= |m| && m'[..BUFFER_END] == m[..BUFFER_END]
    ensures InFrame(s, g, m') && s.tmpIn <= BUFFER_END
  {
    hide WrittenOk, BlockSizeOf;
    SamePart(m, m', BUFFER_END, s.tmpIn, s.tmpIn + s.tmpInSize);
  }

  lemma SamePart(m: seq<byte>, m': seq<byte>, n: nat, lo: nat, hi: nat)
    requires lo <= hi <= n <= |m| == |m'| && m'[..n] == m[..n]
    ensures m'[lo..hi] == m[lo..hi]
  {
    SourceParse.SliceOfPrefix(m, n, lo, hi);
    SourceParse.SliceOfPrefix(m', n, lo, hi);
  }

  lemma HistoryStays(stream: FastStream.Stream, hash: FastStream.Hash, linked: bool, m: seq<byte>, m': seq<byte>, done: seq<byte>, tmpIn: nat)
    requires StreamOk(stream, hash, linked, m, done, tmpIn) && (linked ==> Own(stream.dictionary, stream.dictSize, tmpIn))
    requires tmpIn <= BUFFER_END <= |m| == |m'| && m'[..BUFFER_END] == m[..BUFFER_END]
    ensures StreamOk(stream, hash, linked, m', done, tmpIn)
  {
    hide FastStream.Stream.Ready;
    if linked {
      var lo, hi := stream.dictionary, stream.dictionary + stream.dictSize;
      if stream.dictSize == 0 {
        assert m'[lo..hi] == m[lo..hi];
      } else {
        SamePart(m, m', BUFFER_END, lo, hi);
      }
    }
  }

  lemma InFrameParts(s: Fields, g: Written, m: seq<byte>)
    ensures InFrame(s, g, m) <==>
      s.open && Held(s, g, m) && RoomForBlock(s) && s.tmpIn + s.tmpInSize <= |m| && g.done + Buffered(s, m) == g.input
  {
  }

  lemma CrcSize(p: Prefs)
    ensures Crc(p) <= BFSIZE
  {
  }

  lemma Flushed(s: Fields, s': Fields, g: Written, g': Written, m: seq<byte>, m': seq<byte>, seed: nat, data: seq<byte>)
    requires InFrame(s, g, m) && Hashed(s, g, seed, data) && SameContext(s, s') && s'.tmpInSize == 0
    requires Held(s', g', m') && RoomForBlock(s') && SameFrame(g, g') && Extended(g.done, g'.done, m, s.tmpIn, s.tmpIn + s.tmpInSize)
    ensures InFrame(s', g', m') && Hashed(s', g', seed, data) && s'.prefs == s.prefs
  {
    hide Held, WrittenOk;
    HeldBounds(s', g', m');
    NothingBuffered(s', m', g'.done);
  }

  lemma GoesOn(s: seq<byte>, x: seq<byte>, s': seq<byte>, m: seq<byte>, lo: nat, hi: nat)
    requires lo <= hi <= |m| && x == m[lo..hi] && s' == s + x
    ensures Extended(s, s', m, lo, hi)
  {
  }

  /** There is room for the blocks of this call. */
  lemma CallStarts(s: Fields, g: Written, m: seq<byte>, srcAt: nat, srcSize: nat, goal: seq<byte>, op: nat, dstEnd: nat)
    requires InFrame(s, g, m) && BUFFER_END < srcAt && srcAt + srcSize <= |m| && goal == g.input + m[srcAt..srcAt + srcSize]
    requires op <= dstEnd && BoundInternal(srcSize, s.prefs, s.tmpInSize) <= dstEnd - op
    requires Countable(s.tmpInSize + srcSize, GetBlockSize(s.prefs.blockSizeID), s.prefs.autoFlush)
    ensures Held(s, g, m) && RoomForBlock(s) && Toward(s, g, m, srcAt, srcAt + srcSize, goal) && FrameEndSize(s.prefs) <= dstEnd
    ensures Fits(s, srcAt, srcAt + srcSize, op, dstEnd - FrameEndSize(s.prefs))
  {
    hide Held, RoomForBlock, BoundInternal, GetBlockSize, Room, Countable;
    BlockSizeInForce(s, g, m);
    RoomInBound(s, srcSize);
  }

  lemma RoomInBound(s: Fields, srcSize: nat)
    requires PrefsOk(s.prefs) && s.maxBlockSize == GetBlockSize(s.prefs.blockSizeID) && s.tmpInSize < s.maxBlockSize
    requires s.prefs.autoFlush ==> s.tmpInSize == 0
    requires Countable(s.tmpInSize + srcSize, s.maxBlockSize, s.prefs.autoFlush)
    ensures RoomFor(s, s.tmpInSize + srcSize) + FrameEndSize(s.prefs) <= BoundInternal(srcSize, s.prefs, s.tmpInSize)
  {
    hide BoundInternal, GetBlockSize, Countable, Room;
    if srcSize == 0 {
      NoRoomNeeded(s);
    } else {
      BoundIsEnough(srcSize, s.prefs, s.tmpInSize);
    }
  }

  lemma NoRoomNeeded(s: Fields)
    requires PrefsOk(s.prefs) && s.tmpInSize < s.maxBlockSize && (s.prefs.autoFlush ==> s.tmpInSize == 0)
    ensures RoomFor(s, s.tmpInSize) == 0 && FrameEndSize(s.prefs) <= BoundInternal(0, s.prefs, s.tmpInSize)
  {
    hide BlocksSize, GetBlockSize, Full, Partial;
  }

  lemma BlockSizeInForce(s: Fields, g: Written, m: seq<byte>)
    requires Held(s, g, m)
    ensures PrefsOk(s.prefs) && s.maxBlockSize == GetBlockSize(s.prefs.blockSizeID) && s.tmpInSize < s.maxBlockSize
    ensures s.prefs.autoFlush ==> s.tmpInSize == 0
  {
  }

  /** The context after a call that consumed `src`. */
  function Counted(s: Fields, n: nat): Fields { s.(totalInSize := s.totalInSize + n) }

  lemma CallEnds(s: Fields, s': Fields, g: Written, g': Written, m: seq<byte>, srcEnd: nat, goal: seq<byte>,
                 seed: nat, data: seq<byte>, src: seq<byte>)
    requires s.open && SameContext(s, s') && Held(s', g', m) && RoomForBlock(s') && Toward(s', g', m, srcEnd, srcEnd, goal)
    requires goal == g.input + src && Hashed(s, g, seed, data) && SameFrame(g, g')
    ensures InFrame(Counted(s', |src|), g'.(input := goal), m) && g'.info == g.info
    ensures Hashed(Counted(s', |src|), g'.(input := goal), seed, if s.prefs.contentChecksum then data + src else data)
    ensures SameContext(s, Counted(s', |src|).(totalInSize := s.totalInSize))
    ensures s'.prefs == s.prefs && Counted(s', |src|).tmpIn == s'.tmpIn && Counted(s', |src|).prefs == s'.prefs
  {
    hide BlockSizeOf, EncodeHeader, EncodeBlocks;
    assert m[srcEnd..srcEnd] == [];
    assert g'.done + Buffered(s', m) + [] == g'.done + Buffered(s', m);
  }

  lemma DefaultPrefs(p: Prefs)
    requires PrefsOk(p)
    ensures PrefsOk(WithDefault(p)) && 4 <= WithDefault(p).blockSizeID <= 7
  {
  }

  lemma NewStream(stream: FastStream.Stream, hash: FastStream.Hash, linked: bool, m: seq<byte>)
    requires stream.Ready(linked) && FastStream.HashOk(hash, stream.hashTable.Length)
    requires linked ==> stream.dictionary == 0 && stream.dictSize == 0
    ensures StreamOk(stream, hash, linked, m, [], 0) && (linked ==> Own(stream.dictionary, stream.dictSize, 0))
  {
    hide FastStream.Stream.Ready;
  }
}
