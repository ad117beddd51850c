/** LZ4F_decompress: the resumable frame decoder, whose input and output may be cut
    anywhere.  The output buffer of a call is `dst[dstStart..dstEnd]`; the dictionary of
    linked blocks may lie in `dst` or in the context.
 */
module FrameDecoder {
  import opened Basics
  import opened BlockFormat
  import opened DecoderSpec
  import opened FrameBuffers
  import opened FrameFormat
  import opened FrameHistory
  import opened FrameDict
  import opened FrameDecoderState
  import Xxh32
  import BlockApi

  // ----- History -----

  /** LZ4F_updateDict: `dstSize` bytes were written at `dstPtr`; with `withinTmp`, they
      were flushed from `tmpOutBuffer`. */
  method UpdateDict(s: Fields, dst: array<byte>, dstPtr: nat, dstSize: nat, dstStart: nat, withinTmp: bool, ghost out: seq<byte>)
    returns (s': Fields)
    requires dstStart <= dstPtr && dstPtr + dstSize <= dst.Length && KB128 <= |s.tmpOutBuffer|
    requires dstPtr - dstStart <= |out| && Last(out, dstPtr - dstStart) == dst[dstStart..dstPtr]
    requires if withinTmp then
               && FlushOk(s.dict, s.tmpOutBuffer, dst[..], s.t, s.t.start, out) && s.t.start + dstSize <= s.t.size
               && dst[dstPtr..dstPtr + dstSize] == s.tmpOutBuffer[s.t.at + s.t.start..s.t.at + s.t.start + dstSize]
             else HistoryOk(s.dict, s.tmpOutBuffer, dst[..], out)
    ensures s' == s.(dict := s'.dict, tmpOutBuffer := s'.tmpOutBuffer) && |s'.tmpOutBuffer| == |s.tmpOutBuffer|
    ensures var x := dst[dstPtr..dstPtr + dstSize];
            if withinTmp then
              && FlushOk(s'.dict, s'.tmpOutBuffer, dst[..], s.t, s.t.start + dstSize, out + x)
              && s'.tmpOutBuffer[s.t.at..] == s.tmpOutBuffer[s.t.at..]
            else HistoryOk(s'.dict, s'.tmpOutBuffer, dst[..], out + x)
    ensures s'.dict.buf == InDst ==> s'.dict.at + s'.dict.size == dstPtr + dstSize
  {
    hide FlushOk, HistoryOk;
    ghost var d := dst[..];
    assert d[dstStart..dstPtr] == dst[dstStart..dstPtr] && d[dstPtr..dstPtr + dstSize] == dst[dstPtr..dstPtr + dstSize];
    var dict := s.dict;
    if dict.size == 0 {
      EmptyDict(dict, s.tmpOutBuffer, d, s.t, withinTmp, out, dstPtr);
      dict := Dict(InDst, dstPtr, 0);
    }
    if dict.buf == InDst && dict.at + dict.size == dstPtr {
      if withinTmp {
        FlushInDst(dict, s.tmpOutBuffer, d, s.t, out, dstSize);
      } else {
        ExtendInDst(dict, s.tmpOutBuffer, d, out, dstSize);
      }
      s' := s.(dict := dict.(size := dict.size + dstSize));
    } else if dstPtr - dstStart + dstSize >= KB64 {
      if withinTmp {
        OutputIsFlushHistory(dict, s.tmpOutBuffer, d, s.t, out, dstStart, dstPtr, dstSize);
      } else {
        OutputIsHistory(s.tmpOutBuffer, d, out, dstStart, dstPtr, dstSize);
      }
      s' := s.(dict := Dict(InDst, dstStart, dstPtr - dstStart + dstSize));
    } else if withinTmp {
      s' := UpdateWithinTmp(s.(dict := dict), dst, dstSize, out);
    } else {
      s' := JoinTmp(s.(dict := dict), dst, dstPtr, dstSize, out);
    }
  }

  /** The bytes are in `tmpOutBuffer` anyway: the history in front of them is put there if
      it is elsewhere. */
  method UpdateWithinTmp(s: Fields, dst: array<byte>, dstSize: nat, ghost out: seq<byte>) returns (s': Fields)
    requires FlushOk(s.dict, s.tmpOutBuffer, dst[..], s.t, s.t.start, out) && s.t.start + dstSize <= s.t.size
    ensures s' == s.(dict := s'.dict, tmpOutBuffer := s'.tmpOutBuffer) && |s'.tmpOutBuffer| == |s.tmpOutBuffer|
    ensures s.t.at + s.t.size <= |s.tmpOutBuffer| && s'.tmpOutBuffer[s.t.at..] == s.tmpOutBuffer[s.t.at..]
    ensures FlushOk(s'.dict, s'.tmpOutBuffer, dst[..], s.t, s.t.start + dstSize,
                    out + s.tmpOutBuffer[s.t.at + s.t.start..s.t.at + s.t.start + dstSize])
    ensures s'.dict.buf == InTmp
  {
    hide FlushOk;
    BlockInTmp(s.dict, s.tmpOutBuffer, dst[..], s.t, out);
    s' := s;
    if s.dict.buf != InTmp {
      s' := Preserve(s, dst, out);
      SliceBehind(s.tmpOutBuffer, s'.tmpOutBuffer, s.t.at, s.t.start, s.t.start + dstSize);
      BlockInTmp(s'.dict, s'.tmpOutBuffer, dst[..], s.t, out);
    }
    ExtendInTmp(s'.dict, s'.tmpOutBuffer, dst[..], s.t, out, s.tmpOutBuffer[s.t.at + s.t.start..s.t.at + s.t.start + dstSize]);
    s' := s'.(dict := s'.dict.(size := s'.dict.size + dstSize));
  }

  lemma BlockInTmp(dict: Dict, tmp: seq<byte>, dst: seq<byte>, t: TmpOut, out: seq<byte>)
    requires FlushOk(dict, tmp, dst, t, t.start, out)
    ensures InBounds(dict, tmp, dst) && t.start <= t.size && t.at + t.size <= |tmp|
    ensures dict.buf == InTmp ==> dict.at == 0
    ensures dict.buf != InTmp && 0 < CopySize(t) ==> t.start + CopySize(t) <= dict.size
  {
  }

  /** Moves the history in front of the block that is being flushed. */
  method Preserve(s: Fields, dst: array<byte>, ghost out: seq<byte>) returns (s': Fields)
    requires FlushOk(s.dict, s.tmpOutBuffer, dst[..], s.t, s.t.start, out) && s.dict.buf != InTmp
    ensures s' == s.(dict := s'.dict, tmpOutBuffer := s'.tmpOutBuffer) && |s'.tmpOutBuffer| == |s.tmpOutBuffer|
    ensures s.t.at + s.t.size <= |s.tmpOutBuffer| && s'.tmpOutBuffer[s.t.at..] == s.tmpOutBuffer[s.t.at..]
    ensures FlushOk(s'.dict, s'.tmpOutBuffer, dst[..], s.t, s.t.start, out) && s'.dict.buf == InTmp
  {
    hide FlushOk, Preserved;
    PreservedOk(s.dict, s.tmpOutBuffer, dst[..], s.t, out);
    BlockInTmp(s.dict, s.tmpOutBuffer, dst[..], s.t, out);
    s' := s.(tmpOutBuffer := Preserved(s.dict, s.tmpOutBuffer, dst[..], s.t), dict := Dict(InTmp, 0, s.t.at + s.t.start));
  }

  /** The new bytes are appended to the dictionary in `tmpOutBuffer`, or joined to its end
      there. */
  method JoinTmp(s: Fields, dst: array<byte>, dstPtr: nat, dstSize: nat, ghost out: seq<byte>) returns (s': Fields)
    requires dstPtr + dstSize <= dst.Length && KB128 <= |s.tmpOutBuffer| && dstSize < KB64
    requires HistoryOk(s.dict, s.tmpOutBuffer, dst[..], out)
    ensures s' == s.(dict := s'.dict, tmpOutBuffer := s'.tmpOutBuffer) && |s'.tmpOutBuffer| == |s.tmpOutBuffer|
    ensures s'.dict.buf == InTmp && HistoryOk(s'.dict, s'.tmpOutBuffer, dst[..], out + dst[dstPtr..dstPtr + dstSize])
  {
    hide HistoryOk, DictBytes, Last, Front, InBounds;
    HistoryInBounds(s.dict, s.tmpOutBuffer, dst[..], out);
    var bytes := DictBytes(s.dict, s.tmpOutBuffer, dst[..]);
    var keep := if s.dict.buf == InTmp && s.dict.size + dstSize <= |s.tmpOutBuffer| then s.dict.size
                else if s.dict.buf == InTmp then KB64 - dstSize
                else Min(KB64 - dstSize, s.dict.size);
    var tmp := Front(s.tmpOutBuffer, Last(bytes, keep), dst[dstPtr..dstPtr + dstSize]);
    JoinInTmp(s.dict, s.tmpOutBuffer, dst[..], out, keep, dst[dstPtr..dstPtr + dstSize], tmp);
    s' := s.(tmpOutBuffer := tmp, dict := Dict(InTmp, 0, keep + dstSize));
  }

  lemma HistoryInBounds(dict: Dict, tmp: seq<byte>, dst: seq<byte>, out: seq<byte>)
    requires HistoryOk(dict, tmp, dst, out)
    ensures InBounds(dict, tmp, dst) && (dict.buf == InTmp ==> dict.size <= |tmp|)
  {
  }

  // ----- Header -----

  lemma FrameSplits(f: Frame)
    requires FrameOk(f)
    ensures InfoOk(f.info) && EncodeFrame(f) == EncodeHeader(f.info) + FrameFrom(f, 0)
    ensures HEADER_SIZE_MIN <= HeaderSize(f.info) <= HEADER_SIZE_MAX && HeaderSize(f.info) + 4 <= |EncodeFrame(f)|
    ensures EncodeFrame(f)[..HeaderSize(f.info)] == EncodeHeader(f.info)
    ensures EncodeFrame(f)[HeaderSize(f.info)..] == FrameFrom(f, 0)
  {
    hide EncodeHeader, EncodeBlocks, BlocksOk, FrameContent;
    assert f.blocks[0..] == f.blocks;
  }

  /** Input that starts with the whole header. */
  lemma HeaderAhead(f: Frame, s: seq<byte>)
    requires FrameOk(f) && Agrees(s, 0, EncodeFrame(f)) && HEADER_SIZE_MAX <= |s|
    ensures HEADER_SIZE_MIN <= HeaderSize(f.info) <= HEADER_SIZE_MAX && HeaderSize(f.info) <= |EncodeFrame(f)|
    ensures ParseHeader(s) == Header(f.info, HeaderSize(f.info))
    ensures EncodeFrame(f)[HeaderSize(f.info)..] == FrameFrom(f, 0)
  {
    hide EncodeFrame, EncodeHeader, ParseHeader, HeaderSize, FrameFrom, BlocksOk;
    FrameSplits(f);
    Take(s, 0, EncodeFrame(f), HeaderSize(f.info));
    assert s == EncodeHeader(f.info) + s[HeaderSize(f.info)..];
    ParseEncodedHeader(f.info, s[HeaderSize(f.info)..]);
  }

  /** A stored beginning of the header tells its size. */
  lemma HeaderStored(f: Frame, stored: seq<byte>)
    requires FrameOk(f) && (|stored| == HEADER_SIZE_MIN || |stored| == HeaderSize(f.info))
    requires |stored| <= |EncodeFrame(f)| && stored == EncodeFrame(f)[..|stored|]
    ensures |stored| <= HeaderSize(f.info) <= HEADER_SIZE_MAX
    ensures EncodeFrame(f)[HeaderSize(f.info)..] == FrameFrom(f, 0)
    ensures ParseHeader(stored) ==
      if |stored| == HeaderSize(f.info) then Header(f.info, HeaderSize(f.info)) else Incomplete(HeaderSize(f.info))
  {
    hide EncodeFrame, EncodeHeader, ParseHeader, HeaderSize, FrameFrom, BlocksOk;
    FrameSplits(f);
    if |stored| == HeaderSize(f.info) {
      assert stored + [] == EncodeHeader(f.info) + [];
      ParseEncodedHeader(f.info, []);
      assert stored + [] == stored;
    } else {
      assert stored == EncodeHeader(f.info)[..|stored|];
      ParsePartHeader(f.info, |stored|);
    }
  }

  /** LZ4F_decodeHeader on the beginning `b` of a frame. */
  method DecodeHeader(s: Fields, b: seq<byte>, fromHeader: bool, ghost f: Frame) returns (s': Fields, n: nat)
    requires HEADER_SIZE_MIN <= |b| && |s.header| == HEADER_SIZE_MAX && s.frameRemainingSize == 0 && InfoOk(f.info)
    requires || ParseHeader(b) == Header(f.info, HeaderSize(f.info))
             || (ParseHeader(b) == Incomplete(HeaderSize(f.info)) && |b| < HeaderSize(f.info)
                 && (fromHeader ==> s.header[..|b|] == b))
    ensures ParseHeader(b).Header? ==>
      && n == HeaderSize(f.info) && s'.frameRemainingSize == (if f.info.contentSize.Some? then f.info.contentSize.value else 0)
      && s' == s.(info := f.info, maxBlockSize := BlockSizeOf(f.info.blockSizeID), stage := Init,
                  frameRemainingSize := s'.frameRemainingSize)
    ensures ParseHeader(b).Incomplete? ==>
      && n == |b| && |s'.header| == HEADER_SIZE_MAX && s'.header[..|b|] == b
      && s' == s.(header := s'.header, tmpInSize := |b|, tmpInTarget := HeaderSize(f.info), stage := StoreFrameHeader)
  {
    hide ParseHeader, HeaderSize;
    HeaderSizeBound(f.info);
    s', n := s, 0;
    match ParseHeader(b)
    case Wrong => assert false;
    case Incomplete(size) =>
      var header := if fromHeader then s.header else Replace(s.header, 0, b);
      s' := s.(header := header, tmpInSize := |b|, tmpInTarget := size, stage := StoreFrameHeader);
      n := |b|;
    case Header(info, size) =>
      s' := s.(info := info, maxBlockSize := BlockSizeOf(info.blockSizeID), stage := Init);
      if info.contentSize.Some? {
        s' := s'.(frameRemainingSize := info.contentSize.value);
      }
      n := size;
  }

  lemma HeaderSizeBound(info: Info)
    ensures HeaderSize(info) <= HEADER_SIZE_MAX
  {
  }

  lemma InfoIsOk(f: Frame)
    requires FrameOk(f)
    ensures InfoOk(f.info)
  {
  }

  method StageGetFrameHeader(s: Fields, src: seq<byte>, at: nat, ghost g: Progress)
    returns (s': Fields, at': nat, another: bool, hint: nat, ghost g': Progress)
    requires |s.header| == HEADER_SIZE_MAX && s.stage == GetFrameHeader && AtGetFrameHeader(s, g) && Agrees(src, at, g.todo)
    ensures s' == s.(header := s'.header, tmpInSize := s'.tmpInSize, tmpInTarget := s'.tmpInTarget, stage := s'.stage,
                     info := s'.info, maxBlockSize := s'.maxBlockSize, frameRemainingSize := s'.frameRemainingSize)
    ensures |s'.header| == HEADER_SIZE_MAX
    ensures match s'.stage
            case GetFrameHeader => AtGetFrameHeader(s', g')
            case StoreFrameHeader => AtStoreFrameHeader(s', g')
            case Init => AtInit(s', g')
            case _ => false
    ensures at <= at' && at' - at <= |g.todo| && g' == g.(todo := g.todo[at' - at..]) && Agrees(src, at', g'.todo)
    ensures another ==> at < at'
    ensures !another ==> at' == |src| && 0 < hint == HintOf(s') && g'.todo != []
  {
    hide EncodeFrame, FrameFrom, ParseHeader, HeaderSize, FrameOk, AtInit, AtStoreFrameHeader;
    s', g', at', another, hint := s, g, at, false, HEADER_SIZE_MIN;
    BeginningOfFrame(s, g);
    if |src| - at >= HEADER_SIZE_MAX {
      s', at', g' := WholeHeader(s, src, at, g);
      another := true;
      return;
    }
    s' := s.(tmpInSize := 0);
    if at == |src| { return; }
    s' := s'.(tmpInTarget := HEADER_SIZE_MIN, stage := StoreFrameHeader);
    s', at', another, hint, g' := StageStoreFrameHeader(s', src, at, g);
  }

  lemma BeginningOfFrame(s: Fields, g: Progress)
    requires |s.header| == HEADER_SIZE_MAX && AtGetFrameHeader(s, g)
    ensures g.todo != [] && g == g.(todo := g.todo[0..])
    ensures AtGetFrameHeader(s.(tmpInSize := 0), g)
    ensures AtStoreFrameHeader(s.(tmpInSize := 0, tmpInTarget := HEADER_SIZE_MIN, stage := StoreFrameHeader), g)
  {
    hide EncodeFrame, FrameFrom, HeaderSize, FrameOk;
    FrameSplits(g.f);
    assert s.header[..0] + g.todo == g.todo;
  }

  /** The shortcut: the header is read from the input at once. */
  method WholeHeader(s: Fields, src: seq<byte>, at: nat, ghost g: Progress) returns (s': Fields, at': nat, ghost g': Progress)
    requires |s.header| == HEADER_SIZE_MAX && AtGetFrameHeader(s, g) && Agrees(src, at, g.todo)
    requires |src| - at >= HEADER_SIZE_MAX
    ensures s' == s.(info := s'.info, maxBlockSize := s'.maxBlockSize, stage := Init, frameRemainingSize := s'.frameRemainingSize)
    ensures AtInit(s', g') && at < at' && at' - at <= |g.todo|
    ensures g' == g.(todo := g.todo[at' - at..]) && Agrees(src, at', g'.todo)
  {
    hide EncodeFrame, FrameFrom, ParseHeader, HeaderSize, FrameOk;
    InfoIsOk(g.f);
    AgreesFrom(src, at, g.todo);
    HeaderAhead(g.f, src[at..]);
    Take(src, at, g.todo, HeaderSize(g.f.info));
    var n;
    s', n := DecodeHeader(s, src[at..], false, g.f);
    g', at' := g.(todo := g.todo[n..]), at + n;
  }

  method StageStoreFrameHeader(s: Fields, src: seq<byte>, at: nat, ghost g: Progress)
    returns (s': Fields, at': nat, another: bool, hint: nat, ghost g': Progress)
    requires s.stage == StoreFrameHeader && AtStoreFrameHeader(s, g) && Agrees(src, at, g.todo)
    ensures s' == s.(header := s'.header, tmpInSize := s'.tmpInSize, tmpInTarget := s'.tmpInTarget, stage := s'.stage,
                     info := s'.info, maxBlockSize := s'.maxBlockSize, frameRemainingSize := s'.frameRemainingSize)
    ensures |s'.header| == HEADER_SIZE_MAX
    ensures match s'.stage
            case StoreFrameHeader => AtStoreFrameHeader(s', g')
            case Init => AtInit(s', g')
            case _ => false
    ensures at <= at' && at' - at <= |g.todo| && g' == g.(todo := g.todo[at' - at..]) && Agrees(src, at', g'.todo)
    ensures another ==> at < at'
    ensures !another ==> at' == |src| && 0 < hint == HintOf(s') && g'.todo != []
  {
    hide EncodeFrame, FrameFrom, ParseHeader, HeaderSize, FrameOk;
    FrameSplits(g.f);
    var header, size;
    ghost var todo;
    header, size, at', todo := Store(s.header, s.tmpInSize, s.tmpInTarget, src, at, g.todo, EncodeFrame(g.f));
    s', g' := s.(header := header, tmpInSize := size), g.(todo := todo);
    if size < s.tmpInTarget {
      assert |header[..size] + todo| == size + |todo|;
      return s', at', false, s.tmpInTarget - size + BHSIZE, g';
    }
    HeaderStored(g.f, header[..s.tmpInTarget]);
    var n;
    s', n := DecodeHeader(s', header[..s.tmpInTarget], true, g.f);
    another, hint := true, 1;
  }

  // ----- Buffers -----

  lemma BlockSizes(id: nat, id': nat)
    requires 4 <= id <= 7 && 4 <= id' <= 7
    ensures BlockSizeOf(id) <= BlockSizeOf(id') + KB128 ==> BlockSizeOf(id) <= BlockSizeOf(id')
  {
  }

  /** Buffers that are large enough for the output are large enough for the input: the
      block sizes are too far apart for the room of linked blocks to hide a difference. */
  lemma EnoughForInput(s: Fields)
    requires BuffersOk(s) && InfoOk(s.info) && s.maxBlockSize == BlockSizeOf(s.info.blockSizeID)
    requires s.maxBlockSize + (if s.info.linked then KB128 else 0) <= s.maxBufferSize
    ensures s.maxBlockSize + BFSIZE <= |s.tmpIn|
  {
    var id :| 4 <= id <= 7 && |s.tmpIn| == BlockSizeOf(id) + BFSIZE
              && (s.maxBufferSize == BlockSizeOf(id) || s.maxBufferSize == BlockSizeOf(id) + KB128);
    BlockSizes(s.info.blockSizeID, id);
  }

  /** Allocates the buffers if those of an earlier frame are too small. */
  method Allocate(s: Fields) returns (s': Fields)
    requires BuffersOk(s) && InfoOk(s.info) && s.maxBlockSize == BlockSizeOf(s.info.blockSizeID)
    ensures s' == s.(tmpIn := s'.tmpIn, tmpOutBuffer := s'.tmpOutBuffer, maxBufferSize := s'.maxBufferSize)
    ensures BuffersOk(s') && |s'.header| == HEADER_SIZE_MAX && s'.maxBlockSize + BFSIZE <= |s'.tmpIn|
    ensures s'.maxBlockSize + (if s'.info.linked then KB128 else 0) <= |s'.tmpOutBuffer|
  {
    hide BlockSizeOf, BuffersOk;
    s' := s;
    var bufferNeeded := s.maxBlockSize + if s.info.linked then KB128 else 0;
    if bufferNeeded > s.maxBufferSize {
      s' := s.(tmpIn := seq(s.maxBlockSize + BFSIZE, _ => 0), tmpOutBuffer := seq(bufferNeeded, _ => 0),
               maxBufferSize := bufferNeeded);
      NewBuffers(s, s');
    } else {
      EnoughForInput(s);
      OldBuffers(s);
    }
  }

  /** dstage_init. */
  method StageInit(s: Fields, ghost g: Progress, ghost d: seq<byte>, ghost h: Sum) returns (s': Fields)
    requires BuffersOk(s) && AtInit(s, g) && Hashed(s, h, [])
    ensures s'.stage == GetBlockHeader && s'.dict == s.dict && s'.skipChecksum == s.skipChecksum
    ensures BuffersOk(s') && AtGetBlockHeader(s', g, d, h)
  {
    hide FrameOk, FrameFrom, BlockSizeOf, BuffersOk, HistoryOk;
    InfoIsOk(g.f);
    var s1 := Allocate(s);
    s' := s1.(tmpInSize := 0, tmpInTarget := 0, t := TmpOut(0, 0, 0), stage := GetBlockHeader);
    SameBuffers(s1, s');
    NothingBefore(g.f);
    NoHistory(s'.tmpOutBuffer, d);
  }

  lemma NoHistory(tmp: seq<byte>, d: seq<byte>)
    ensures HistoryOk(Dict(Nowhere, 0, 0), tmp, d, [])
  {
  }

  lemma NewBuffers(s: Fields, s': Fields)
    requires BuffersOk(s) && InfoOk(s.info) && s.maxBlockSize == BlockSizeOf(s.info.blockSizeID)
    requires var n := s.maxBlockSize + if s.info.linked then KB128 else 0;
             s' == s.(tmpIn := s'.tmpIn, tmpOutBuffer := s'.tmpOutBuffer, maxBufferSize := n) && |s'.tmpOutBuffer| == n
    requires |s'.tmpIn| == s.maxBlockSize + BFSIZE
    ensures BuffersOk(s') && |s'.header| == HEADER_SIZE_MAX
  {
    assert 4 <= s.info.blockSizeID <= 7 && |s'.tmpIn| == BlockSizeOf(s.info.blockSizeID) + BFSIZE;
  }

  lemma OldBuffers(s: Fields)
    requires BuffersOk(s)
    ensures |s.tmpOutBuffer| == s.maxBufferSize && |s.header| == HEADER_SIZE_MAX
  {
  }

  /** `BuffersOk` speaks of the buffers only. */
  lemma SameBuffers(s: Fields, s': Fields)
    requires BuffersOk(s) && |s'.header| == HEADER_SIZE_MAX && |s.tmpIn| == |s'.tmpIn|
    requires |s.tmpOutBuffer| == |s'.tmpOutBuffer| && s.maxBufferSize == s'.maxBufferSize
    ensures BuffersOk(s')
  {
  }

  lemma NothingBefore(f: Frame)
    ensures Before(f, 0) == []
  {
  }

  // ----- Block headers -----

  /** What stands at block `i` of a frame, or behind its last block. */
  lemma BlockAhead(f: Frame, i: nat)
    requires FrameOk(f) && i <= |f.blocks|
    ensures InfoOk(f.info) && 4 <= |FrameFrom(f, i)|
    ensures i < |f.blocks| ==>
      var fb := f.blocks[i];
      && ReadLE(FrameFrom(f, i)[..4]) == BlockHeader(fb) && 0 < BlockHeader(fb)
      && |fb.bytes| <= BlockSizeOf(f.info.blockSizeID)
      && FrameFrom(f, i)[4..] == fb.bytes + (BlockSum(f.info, fb.bytes) + FrameFrom(f, i + 1))
    ensures i == |f.blocks| ==>
      && ReadLE(FrameFrom(f, i)[..4]) == 0 && Before(f, i) == FrameContent(f)
      && FrameFrom(f, i)[4..] == if f.info.contentChecksum then Checksum(FrameContent(f)) else []
  {
    hide Checksum, FrameFrom, Before, FrameContent;
    InfoIsOk(f);
    if i < |f.blocks| {
      hide FrameOk;
      BlockFits(f, i);
      var fb := f.blocks[i];
      FromNext(f, i);
      ReadLE32Written(BlockHeader(fb));
      BlockParts(f.info, fb, FrameFrom(f, i + 1));
    } else {
      hide FrameOk;
      EndAhead(f);
    }
  }

  lemma BlockFits(f: Frame, i: nat)
    requires FrameOk(f) && i < |f.blocks|
    ensures InfoOk(f.info) && |f.blocks[i].bytes| <= BlockSizeOf(f.info.blockSizeID)
    ensures 0 < BlockHeader(f.blocks[i]) < TWO32
  {
    BeforeNext(f, i);
    hide FrameOk, ParseBlock;
    if f.blocks[i].Packed? {
      hide Before, ValidBlock;
      assert ParseBlock([]) == None by { NothingParses(); }
    }
  }

  lemma NothingParses()
    ensures ParseBlock([]) == None
  {
  }

  lemma BlockParts(info: Info, fb: FrameBlock, rest: seq<byte>)
    ensures var s := EncodeFrameBlock(info, fb) + rest;
            4 <= |s| && s[..4] == WriteLE(BlockHeader(fb), 4) && s[4..] == fb.bytes + (BlockSum(info, fb.bytes) + rest)
  {
    hide WriteLE, Checksum;
  }

  lemma EndAhead(f: Frame)
    ensures var s := FrameFrom(f, |f.blocks|);
            && 4 <= |s| && ReadLE(s[..4]) == 0
            && s[4..] == if f.info.contentChecksum then Checksum(FrameContent(f)) else []
    ensures Before(f, |f.blocks|) == FrameContent(f)
  {
    hide Checksum, BlocksOutput;
    assert f.blocks[|f.blocks|..] == [] && f.blocks[..|f.blocks|] == f.blocks;
    assert EncodeBlocks(f.info, f.blocks[|f.blocks|..]) == [];
    ReadLE32Written(0);
    assert FrameFrom(f, |f.blocks|) == FrameEnd(f);
    assert FrameEnd(f)[..4] == WriteLE(0, 4);
  }

  /** The block header: what kind of block comes, or the end of the frame. */
  method DecodeBlockHeader(s: Fields, blockHeader: nat, full: bool, ghost g: Progress, ghost d: seq<byte>, ghost h: Sum)
    returns (s': Fields, another: bool, hint: nat)
    requires BetweenBlocks(s, g, d, h) && blockHeader == ReadLE(FrameFrom(g.f, g.i)[..4])
    requires 4 <= |FrameFrom(g.f, g.i)| && g.todo == FrameFrom(g.f, g.i)[4..]
    ensures s' == s.(stage := s'.stage, tmpInTarget := s'.tmpInTarget)
    ensures match s'.stage
            case GetSuffix => AtGetSuffix(s', g, h)
            case CopyDirect => AtCopyDirect(s', g, d, h, Sum(0, []))
            case GetCBlock => AtGetCBlock(s', g, d, h)
            case _ => false
    ensures !another ==> full && 0 < hint == HintOf(s') && g.todo != []
  {
    hide FrameOk, FrameFrom, ReadLE, Before, FrameContent, HistoryOk, Checksum;
    BlockAhead(g.f, g.i);
    s', another, hint := s, true, 1;
    if blockHeader == 0 {
      s' := s.(stage := GetSuffix);
      return;
    }
    var nextCBlockSize := blockHeader % BLOCKUNCOMPRESSED_FLAG;
    HeaderValue(g.f.blocks[g.i], blockHeader, s.maxBlockSize);
    if nextCBlockSize > s.maxBlockSize { assert false; }
    if blockHeader >= BLOCKUNCOMPRESSED_FLAG {
      s' := s.(tmpInTarget := nextCBlockSize, stage := CopyDirect);
      RawAhead(s, s', g, d, h);
    } else {
      s' := s.(tmpInTarget := nextCBlockSize + SumSize(s.info), stage := GetCBlock);
      if full {
        another, hint := false, BHSIZE + s'.tmpInTarget;
      }
    }
  }

  lemma HeaderValue(fb: FrameBlock, header: nat, maxBlockSize: nat)
    requires header == BlockHeader(fb) && 0 < header && |fb.bytes| <= maxBlockSize <= 0x40_0000
    ensures header % BLOCKUNCOMPRESSED_FLAG == |fb.bytes| && (header >= BLOCKUNCOMPRESSED_FLAG <==> fb.Raw?)
    ensures fb.Packed? ==> fb.bytes != []
  {
  }

  lemma RawAhead(s: Fields, s': Fields, g: Progress, d: seq<byte>, h: Sum)
    requires BetweenBlocks(s, g, d, h) && g.i < |g.f.blocks| && g.f.blocks[g.i].Raw?
    requires s' == s.(tmpInTarget := |g.f.blocks[g.i].bytes|, stage := CopyDirect)
    requires var bytes := g.f.blocks[g.i].bytes; g.todo == bytes + (BlockSum(g.f.info, bytes) + FrameFrom(g.f, g.i + 1))
    ensures AtCopyDirect(s', g, d, h, Sum(0, []))
  {
    hide FrameOk, FrameFrom, Before, HistoryOk, Checksum, BlockSum;
    var bytes := g.f.blocks[g.i].bytes;
    assert bytes[..0] == [] && bytes[0..] == bytes;
    assert Before(g.f, g.i) + [] == Before(g.f, g.i);
  }

  /** dstage_getBlockHeader and dstage_storeBlockHeader. */
  method StageBlockHeader(s: Fields, src: seq<byte>, at: nat, dstFull: bool, ghost g: Progress, ghost d: seq<byte>, ghost h: Sum)
    returns (s': Fields, at': nat, another: bool, hint: nat, ghost g': Progress)
    requires Agrees(src, at, g.todo)
    requires || (s.stage == GetBlockHeader && AtGetBlockHeader(s, g, d, h))
             || (s.stage == StoreBlockHeader && AtStoreBlockHeader(s, g, d, h))
    ensures |s'.tmpIn| == |s.tmpIn|
    ensures s' == s.(stage := s'.stage, tmpIn := s'.tmpIn, tmpInSize := s'.tmpInSize, tmpInTarget := s'.tmpInTarget)
    ensures match s'.stage
            case StoreBlockHeader => AtStoreBlockHeader(s', g', d, h)
            case GetSuffix => AtGetSuffix(s', g', h)
            case CopyDirect => AtCopyDirect(s', g', d, h, Sum(0, []))
            case GetCBlock => AtGetCBlock(s', g', d, h)
            case _ => false
    ensures at <= at' && at' - at <= |g.todo| && g' == g.(todo := g.todo[at' - at..]) && Agrees(src, at', g'.todo)
    ensures another ==> at < at'
    ensures !another ==> (at' == |src| || dstFull) && 0 < hint == HintOf(s') && g'.todo != []
  {
    hide FrameOk, FrameFrom, ReadLE, AtGetSuffix, AtCopyDirect, AtGetCBlock, BetweenBlocks;
    NextBlock(s, g, d, h);
    var complete, selectedIn;
    s', at', complete, selectedIn, g' := ReadBlockHeader(s, src, at, g, d, h);
    if !complete {
      return s', at', false, BHSIZE - s'.tmpInSize, g';
    }
    s', another, hint := DecodeBlockHeader(s', ReadLE(selectedIn), dstFull || at' == |src|, g', d, h);
  }

  lemma NextBlock(s: Fields, g: Progress, d: seq<byte>, h: Sum)
    requires BetweenBlocks(s, g, d, h)
    ensures g.i <= |g.f.blocks| && 4 <= |FrameFrom(g.f, g.i)| && BHSIZE <= |s.tmpIn|
  {
    hide FrameOk, Before, HistoryOk, FrameFrom;
    FrameGoesOn(g.f, g.i);
  }

  /** `BetweenBlocks` does not depend on the input buffer's contents. */
  lemma InputMoves(s: Fields, s': Fields, g: Progress, g': Progress, d: seq<byte>, h: Sum)
    requires BetweenBlocks(s, g, d, h) && g' == g.(todo := g'.todo) && |s'.tmpIn| == |s.tmpIn|
    requires s' == s.(stage := s'.stage, tmpIn := s'.tmpIn, tmpInSize := s'.tmpInSize)
    ensures BetweenBlocks(s', g', d, h)
  {
    hide FrameOk, Before, HistoryOk;
  }

  /** The four bytes of a block header, from the input or collected in `tmpIn`. */
  method ReadBlockHeader(s: Fields, src: seq<byte>, at: nat, ghost g: Progress, ghost d: seq<byte>, ghost h: Sum)
    returns (s': Fields, at': nat, complete: bool, selectedIn: seq<byte>, ghost g': Progress)
    requires Agrees(src, at, g.todo) && g.i <= |g.f.blocks| && 4 <= |FrameFrom(g.f, g.i)| && BHSIZE <= |s.tmpIn|
    requires || (s.stage == GetBlockHeader && AtGetBlockHeader(s, g, d, h))
             || (s.stage == StoreBlockHeader && AtStoreBlockHeader(s, g, d, h))
    ensures |s'.tmpIn| == |s.tmpIn| && s' == s.(stage := s'.stage, tmpIn := s'.tmpIn, tmpInSize := s'.tmpInSize)
    ensures at <= at' && at' - at <= |g.todo| && g' == g.(todo := g.todo[at' - at..]) && Agrees(src, at', g'.todo)
    ensures !complete ==>
      && s'.stage == StoreBlockHeader && AtStoreBlockHeader(s', g', d, h) && at' == |src| && s'.tmpInSize < BHSIZE && g'.todo != []
    ensures complete ==>
      && at < at' && BetweenBlocks(s', g', d, h)
      && selectedIn == FrameFrom(g.f, g.i)[..4] && g'.todo == FrameFrom(g.f, g.i)[4..]
  {
    hide BetweenBlocks, FrameFrom;
    var direct := s.stage == GetBlockHeader && |src| - at >= BHSIZE;
    var have := if s.stage == GetBlockHeader then 0 else s.tmpInSize;
    assert s.tmpIn[..have] + g.todo == FrameFrom(g.f, g.i);
    var tmpIn;
    ghost var todo;
    tmpIn, have, at', complete, selectedIn, todo := Collect(s.tmpIn, have, BHSIZE, src, at, direct, g.todo, FrameFrom(g.f, g.i));
    g' := g.(todo := todo);
    s' := if direct then s else s.(tmpIn := tmpIn, tmpInSize := have, stage := StoreBlockHeader);
    InputMoves(s, s', g, g', d, h);
  }

  // ----- Uncompressed blocks -----

  /** The output of this call up to `dstPtr`, and the dictionary clear of the rest. */
  predicate OutputOk(d: seq<byte>, dstStart: nat, dstPtr: nat, dstEnd: nat, out: seq<byte>, dict: Dict) {
    && dstStart <= dstPtr <= dstEnd <= |d| && dstPtr - dstStart <= |out| && Last(out, dstPtr - dstStart) == d[dstStart..dstPtr]
    && (dict.buf == InDst ==> dict.at + dict.size <= dstPtr || dstEnd <= dict.at)
  }

  lemma OutputGrows(d: seq<byte>, d': seq<byte>, dstStart: nat, dstPtr: nat, dstEnd: nat, out: seq<byte>, dict: Dict, x: seq<byte>, dict': Dict)
    requires OutputOk(d, dstStart, dstPtr, dstEnd, out, dict) && |d'| == |d| && dstPtr + |x| <= dstEnd
    requires d'[dstStart..dstPtr] == d[dstStart..dstPtr] && d'[dstPtr..dstPtr + |x|] == x
    requires dict'.buf == InDst ==> dict'.at + dict'.size <= dstPtr + |x|
    ensures OutputOk(d', dstStart, dstPtr + |x|, dstEnd, out + x, dict')
  {
    assert d'[dstStart..dstPtr + |x|] == d'[dstStart..dstPtr] + x;
    assert Last(out + x, dstPtr + |x| - dstStart) == Last(out, dstPtr - dstStart) + x;
  }

  /** Writing where the dictionary is not does not change it. */
  lemma HistoryKept(dict: Dict, tmp: seq<byte>, d: seq<byte>, d': seq<byte>, out: seq<byte>)
    requires HistoryOk(dict, tmp, d, out) && |d| == |d'|
    requires dict.buf == InDst ==> dict.at + dict.size <= |d| && d'[dict.at..dict.at + dict.size] == d[dict.at..dict.at + dict.size]
    ensures HistoryOk(dict, tmp, d', out)
  {
    hide Covers;
  }

  lemma FlushKept(dict: Dict, tmp: seq<byte>, d: seq<byte>, d': seq<byte>, t: TmpOut, start: nat, out: seq<byte>)
    requires FlushOk(dict, tmp, d, t, start, out) && |d| == |d'|
    requires dict.buf == InDst ==> dict.at + dict.size <= |d| && d'[dict.at..dict.at + dict.size] == d[dict.at..dict.at + dict.size]
    ensures FlushOk(dict, tmp, d', t, start, out)
  {
    hide Covers, Delivered;
  }

  /** Where the output is written, neither the dictionary nor earlier output changes. */
  lemma DictOutside(d: seq<byte>, d': seq<byte>, dstStart: nat, dstPtr: nat, hi: nat, dstEnd: nat, out: seq<byte>, dict: Dict, tmp: seq<byte>)
    requires SameOutside(d, d', dstPtr, hi) && dstPtr <= hi <= dstEnd
    requires OutputOk(d, dstStart, dstPtr, dstEnd, out, dict) && InBounds(dict, tmp, d)
    ensures InBounds(dict, tmp, d') && d'[dstStart..dstPtr] == d[dstStart..dstPtr]
    ensures dict.buf == InDst ==> d'[dict.at..dict.at + dict.size] == d[dict.at..dict.at + dict.size]
    ensures OutputOk(d', dstStart, dstPtr, dstEnd, out, dict)
  {
    SliceOutside(d, d', dstPtr, hi, dstStart, dstPtr);
    if dict.buf == InDst && 0 < dict.size {
      SliceOutside(d, d', dstPtr, hi, dict.at, dict.at + dict.size);
    }
  }

  function Fed(sum: Sum, on: bool, x: seq<byte>): Sum {
    if on then Sum(sum.seed, sum.data + x) else sum
  }

  function ContentSumOn(s: Fields): bool { s.info.contentChecksum && !s.skipChecksum }

  function BlockSumOn(s: Fields): bool { s.info.blockChecksum && !s.skipChecksum }

  function Remaining(s: Fields, n: nat): int {
    if s.info.contentSize.Some? then s.frameRemainingSize - n else s.frameRemainingSize
  }

  /** Writes `area` to the output; its first `n` bytes are content and join the history. */
  method Append(s: Fields, area: seq<byte>, n: nat, dst: array<byte>, dstStart: nat, dstPtr: nat, ghost dstEnd: nat, ghost out: seq<byte>)
    returns (s': Fields)
    requires n <= |area| && OutputOk(dst[..], dstStart, dstPtr, dstEnd, out, s.dict) && dstPtr + |area| <= dstEnd
    requires Hist(s, dst[..], out) && (s.info.linked ==> KB128 <= |s.tmpOutBuffer|)
    modifies dst
    ensures s' == s.(frameRemainingSize := Remaining(s, n), dict := s'.dict, tmpOutBuffer := s'.tmpOutBuffer)
    ensures |s'.tmpOutBuffer| == |s.tmpOutBuffer|
    ensures Hist(s', dst[..], out + area[..n])
    ensures OutputOk(dst[..], dstStart, dstPtr + n, dstEnd, out + area[..n], s'.dict)
    ensures SameOutside(old(dst[..]), dst[..], dstPtr, dstPtr + |area|) && dst[..][dstPtr..dstPtr + n] == area[..n]
  {
    hide HistoryOk, Last, SameOutside;
    ghost var d := dst[..];
    WriteOut(dst, dstPtr, area);
    ghost var d' := dst[..];
    s' := s.(frameRemainingSize := Remaining(s, n));
    HistBounds(s, d, out);
    DictOutside(d, d', dstStart, dstPtr, dstPtr + |area|, dstEnd, out, s.dict, s.tmpOutBuffer);
    assert d'[dstPtr..dstPtr + n] == d'[dstPtr..dstPtr + |area|][..n] == area[..n];
    assert d'[dstStart..dstPtr] == dst[dstStart..dstPtr] && d'[dstPtr..dstPtr + n] == dst[dstPtr..dstPtr + n];
    if s.info.linked {
      HistoryKept(s.dict, s.tmpOutBuffer, d, d', out);
      s' := UpdateDict(s', dst, dstPtr, n, dstStart, false, out);
    }
    OutputGrows(d, d', dstStart, dstPtr, dstEnd, out, s.dict, area[..n], s'.dict);
  }

  lemma HistBounds(s: Fields, d: seq<byte>, out: seq<byte>)
    requires Hist(s, d, out)
    ensures InBounds(s.dict, s.tmpOutBuffer, d)
  {
  }

  /** After `n` more bytes of an uncompressed block. */
  lemma RawCopied(s: Fields, s': Fields, g: Progress, n: nat, d: seq<byte>, d': seq<byte>, h: Sum, bh: Sum)
    requires AtCopyDirect(s, g, d, h, bh) && n <= s.tmpInTarget && n <= |g.todo| && |s'.tmpOutBuffer| == |s.tmpOutBuffer|
    requires s' == s.(frameRemainingSize := Remaining(s, n), dict := s'.dict, tmpOutBuffer := s'.tmpOutBuffer,
                      tmpInTarget := s.tmpInTarget - n)
    requires Hist(s', d', g.out + g.todo[..n])
    ensures var x := g.todo[..n];
            AtCopyDirect(s', g.(out := g.out + x, todo := g.todo[n..]), d', Fed(h, ContentSumOn(s), x), Fed(bh, BlockSumOn(s), x))
  {
    hide FrameOk, FrameFrom, Before, HistoryOk, BlockSum;
    var bytes := g.f.blocks[g.i].bytes;
    var k := |bytes| - s.tmpInTarget;
    var rest := BlockSum(g.f.info, bytes) + FrameFrom(g.f, g.i + 1);
    RawParts(bytes, k, n, rest, Before(g.f, g.i));
  }

  lemma RawParts(bytes: seq<byte>, k: nat, n: nat, rest: seq<byte>, before: seq<byte>)
    requires k + n <= |bytes|
    ensures (bytes[k..] + rest)[..n] == bytes[k..k + n]
    ensures (bytes[k..] + rest)[n..] == bytes[k + n..] + rest
    ensures bytes[..k] + bytes[k..k + n] == bytes[..k + n]
    ensures before + bytes[..k] + bytes[k..k + n] == before + bytes[..k + n]
  {
    assert bytes[..k] + bytes[k..k + n] == bytes[..k + n];
  }

  /** An uncompressed block is complete: its checksum or the next block comes. */
  lemma RawComplete(s: Fields, g: Progress, d: seq<byte>, h: Sum, bh: Sum)
    requires AtCopyDirect(s, g, d, h, bh) && s.tmpInTarget == 0
    ensures if s.info.blockChecksum then AtGetBlockChecksum(s.(tmpInSize := 0, stage := GetBlockChecksum), g, d, h, bh)
            else AtGetBlockHeader(s.(stage := GetBlockHeader), g.(i := g.i + 1), d, h)
  {
    hide FrameFrom, HistoryOk, Checksum, FrameOk, Before;
    BeforeNext(g.f, g.i);
    var bytes := g.f.blocks[g.i].bytes;
    assert bytes[|bytes|..] == [] && bytes[..|bytes|] == bytes;
    NothingInFront([], BlockSum(g.f.info, bytes) + FrameFrom(g.f, g.i + 1));
    NothingInFront(s.header, g.todo);
  }

  /** dstage_copyDirect.  The caller feeds the `n` bytes to the checksums. */
  method StageCopyDirect(s: Fields, src: seq<byte>, at: nat, dst: array<byte>, dstStart: nat, dstPtr: nat, dstEnd: nat,
                         ghost g: Progress, ghost h: Sum, ghost bh: Sum)
    returns (s': Fields, n: nat, another: bool, hint: nat, ghost g': Progress)
    requires s.stage == CopyDirect && AtCopyDirect(s, g, dst[..], h, bh) && Agrees(src, at, g.todo)
    requires OutputOk(dst[..], dstStart, dstPtr, dstEnd, g.out, s.dict)
    modifies dst
    ensures at + n <= |src| && dstPtr + n <= dstEnd && n <= |g.todo| && |s'.tmpOutBuffer| == |s.tmpOutBuffer|
    ensures s' == s.(frameRemainingSize := s'.frameRemainingSize, dict := s'.dict, tmpOutBuffer := s'.tmpOutBuffer,
                     tmpInTarget := s'.tmpInTarget, tmpInSize := s'.tmpInSize, stage := s'.stage)
    ensures g' == g.(out := g.out + src[at..at + n], todo := g.todo[n..], i := g'.i) && Agrees(src, at + n, g'.todo)
    ensures SameOutside(old(dst[..]), dst[..], dstPtr, dstPtr + n) && dst[..][dstPtr..dstPtr + n] == src[at..at + n]
    ensures OutputOk(dst[..], dstStart, dstPtr + n, dstEnd, g'.out, s'.dict)
    ensures var h', bh' := Fed(h, ContentSumOn(s), src[at..at + n]), Fed(bh, BlockSumOn(s), src[at..at + n]);
            match s'.stage
            case CopyDirect => AtCopyDirect(s', g', dst[..], h', bh')
            case GetBlockChecksum => AtGetBlockChecksum(s', g', dst[..], h', bh')
            case GetBlockHeader => AtGetBlockHeader(s', g', dst[..], h')
            case _ => false
    ensures another ==> s'.stage != CopyDirect
    ensures !another ==> (at + n == |src| || dstPtr + n == dstEnd) && 0 < hint == HintOf(s') && g'.todo != []
  {
    RawRoom(s, g, dst[..], h, bh);
    hide OutputOk, Hist, SameOutside, BlockSum, FrameFrom, Before, FrameOk;
    OutputBounds(dst[..], dstStart, dstPtr, dstEnd, g.out, s.dict);
    n := Min(Min(|src| - at, dstEnd - dstPtr), s.tmpInTarget);
    assert |g.todo| >= s.tmpInTarget;
    Take(src, at, g.todo, n);
    ghost var d := dst[..];
    ghost var x := src[at..at + n];
    assert x[..n] == x;
    s' := Append(s, src[at..at + n], n, dst, dstStart, dstPtr, dstEnd, g.out);
    s' := s'.(tmpInTarget := s.tmpInTarget - n);
    RawCopied(s, s', g, n, d, dst[..], h, bh);
    g', another, hint := g.(out := g.out + x, todo := g.todo[n..]), true, 1;
    if s'.tmpInTarget == 0 {
      RawComplete(s', g', dst[..], Fed(h, ContentSumOn(s), x), Fed(bh, BlockSumOn(s), x));
      if s.info.blockChecksum {
        s' := s'.(tmpInSize := 0, stage := GetBlockChecksum);
      } else {
        s', g' := s'.(stage := GetBlockHeader), g'.(i := g'.i + 1);
      }
    } else {
      another, hint := false, s'.tmpInTarget + SumSize(s.info) + BHSIZE;
    }
  }

  lemma RawRoom(s: Fields, g: Progress, d: seq<byte>, h: Sum, bh: Sum)
    requires AtCopyDirect(s, g, d, h, bh)
    ensures s.tmpInTarget <= |g.todo| && Hist(s, d, g.out) && (s.info.linked ==> KB128 <= |s.tmpOutBuffer|)
    ensures s.tmpInTarget < |g.todo|
  {
    hide Before, FrameOk, Hist, HistoryOk;
    FrameGoesOn(g.f, g.i + 1);
  }

  lemma FrameGoesOn(f: Frame, i: nat)
    requires i <= |f.blocks|
    ensures 4 <= |FrameFrom(f, i)|
  {
  }

  lemma OutputBounds(d: seq<byte>, dstStart: nat, dstPtr: nat, dstEnd: nat, out: seq<byte>, dict: Dict)
    requires OutputOk(d, dstStart, dstPtr, dstEnd, out, dict)
    ensures dstStart <= dstPtr <= dstEnd <= |d|
  {
  }

  lemma ChecksumRead(x: seq<byte>)
    ensures |Checksum(x)| == 4 && ReadLE(Checksum(x)) == Xxh32.Hash(x, 0)
  {
    hide WriteLE, ReadLE, Xxh32.Hash;
    ReadLE32Written(Xxh32.Hash(x, 0));
  }

  lemma FrontAndRest(a: seq<byte>, b: seq<byte>)
    ensures (a + b)[..|a|] == a && (a + b)[|a|..] == b
  {
  }

  /** dstage_getBlockChecksum: the checksum of the block just copied. */
  method StageBlockChecksum(s: Fields, src: seq<byte>, at: nat, ghost g: Progress, ghost d: seq<byte>, ghost h: Sum, ghost bh: Sum)
    returns (s': Fields, at': nat, complete: bool, readCRC: nat, ghost g': Progress)
    requires s.stage == GetBlockChecksum && AtGetBlockChecksum(s, g, d, h, bh) && Agrees(src, at, g.todo)
    ensures |s'.header| == |s.header| && s' == s.(stage := s'.stage, header := s'.header, tmpInSize := s'.tmpInSize)
    ensures at <= at' && at' - at <= |g.todo| && Agrees(src, at', g'.todo)
    ensures g' == g.(todo := g.todo[at' - at..], i := g'.i)
    ensures !complete ==> s'.stage == GetBlockChecksum && AtGetBlockChecksum(s', g', d, h, bh) && at' == |src| && g'.todo != []
    ensures complete ==>
      && at < at' && s'.stage == GetBlockHeader && AtGetBlockHeader(s', g', d, h)
      && g.i < |g.f.blocks| && readCRC == Xxh32.Hash(g.f.blocks[g.i].bytes, 0)
      && (!s.skipChecksum ==> bh == Sum(0, g.f.blocks[g.i].bytes))
  {
    hide RawNext, FrameFrom, Checksum, ReadLE;
    RawFinished(s, g, d, h, bh);
    ghost var bytes := g.f.blocks[g.i].bytes;
    ghost var all := Checksum(bytes) + FrameFrom(g.f, g.i + 1);
    ChecksumRead(bytes);
    FrontAndRest(Checksum(bytes), FrameFrom(g.f, g.i + 1));
    var direct := |src| - at >= 4 && s.tmpInSize == 0;
    var header, have, crcSrc;
    ghost var todo;
    header, have, at', complete, crcSrc, todo := Collect(s.header, s.tmpInSize, 4, src, at, direct, g.todo, all);
    readCRC := ReadLE(crcSrc);
    s', g' := if direct then s else s.(header := header, tmpInSize := have), g.(todo := todo);
    if complete {
      s', g' := s'.(stage := GetBlockHeader), g'.(i := g.i + 1);
      RawToNext(s, s', g, g', d, h, bh);
    } else {
      RawWaits(s, s', g, g', d, h, bh);
    }
  }

  lemma RawToNext(s: Fields, s': Fields, g: Progress, g': Progress, d: seq<byte>, h: Sum, bh: Sum)
    requires RawNext(s, g, d, h, bh, 0) && g.out == Before(g.f, g.i + 1) && g' == g.(i := g.i + 1, todo := g'.todo)
    requires |s'.header| == |s.header| && s' == s.(stage := s'.stage, header := s'.header, tmpInSize := s'.tmpInSize)
    ensures BetweenBlocks(s', g', d, h)
  {
    hide FrameOk, Before, HistoryOk;
  }

  lemma RawWaits(s: Fields, s': Fields, g: Progress, g': Progress, d: seq<byte>, h: Sum, bh: Sum)
    requires RawNext(s, g, d, h, bh, 0) && g' == g.(todo := g'.todo)
    requires |s'.header| == |s.header| && s' == s.(header := s'.header, tmpInSize := s'.tmpInSize)
    ensures RawNext(s', g', d, h, bh, 0)
  {
    hide FrameOk, Before, HistoryOk;
  }

  lemma RawFinished(s: Fields, g: Progress, d: seq<byte>, h: Sum, bh: Sum)
    requires AtGetBlockChecksum(s, g, d, h, bh)
    ensures g.i < |g.f.blocks| && |s.header| == HEADER_SIZE_MAX
    ensures g.out == Before(g.f, g.i + 1) && (!s.skipChecksum ==> bh == Sum(0, g.f.blocks[g.i].bytes))
  {
    hide FrameFrom, Hist, Checksum;
    BeforeNext(g.f, g.i);
    hide FrameOk, Before;
    var bytes := g.f.blocks[g.i].bytes;
    assert bytes[..|bytes| - 0] == bytes;
  }

  // ----- Compressed blocks -----

  /** dstage_getCBlock and dstage_storeCBlock: the whole compressed block, with its
      checksum, from the input or collected in `tmpIn`. */
  method StageCBlock(s: Fields, src: seq<byte>, at: nat, ghost g: Progress, ghost d: seq<byte>, ghost h: Sum)
    returns (s': Fields, at': nat, complete: bool, selectedIn: seq<byte>, ghost g': Progress)
    requires Agrees(src, at, g.todo)
    requires || (s.stage == GetCBlock && AtGetCBlock(s, g, d, h))
             || (s.stage == StoreCBlock && AtStoreCBlock(s, g, d, h))
    ensures |s'.tmpIn| == |s.tmpIn| && s' == s.(stage := s'.stage, tmpIn := s'.tmpIn, tmpInSize := s'.tmpInSize)
    ensures at <= at' && at' - at <= |g.todo| && g' == g.(todo := g.todo[at' - at..]) && Agrees(src, at', g'.todo)
    ensures !complete ==>
      && s'.stage == StoreCBlock && AtStoreCBlock(s', g', d, h) && at' == |src| && s'.tmpInSize < s'.tmpInTarget && g'.todo != []
    ensures s'.stage == GetCBlock || s'.stage == StoreCBlock
    ensures complete ==>
      && BetweenBlocks(s', g', d, h) && PackedNext(g) && g'.todo == FrameFrom(g.f, g.i + 1)
      && selectedIn == g.f.blocks[g.i].bytes + BlockSum(g.f.info, g.f.blocks[g.i].bytes)
      && at < at'
  {
    hide *;
    CBlockAhead(s, g, d, h);
    CBlockParts(g);
    var direct := s.stage == GetCBlock && |src| - at >= s.tmpInTarget;
    var tmpIn, have;
    ghost var todo;
    tmpIn, have, at', complete, selectedIn, todo :=
      Collect(s.tmpIn, CBlockStored(s), s.tmpInTarget, src, at, direct, g.todo, CBlockFrom(g.f, g.i));
    g' := g.(todo := todo);
    s' := if direct then s else s.(tmpIn := tmpIn, tmpInSize := have, stage := StoreCBlock);
    InputMoves(s, s', g, g', d, h);
    if !complete {
      CBlockWaits(s', g, g', d, h);
    }
  }

  /** How much of the block is stored. */
  function CBlockStored(s: Fields): nat {
    if s.stage == GetCBlock then 0 else s.tmpInSize
  }

  lemma CBlockAhead(s: Fields, g: Progress, d: seq<byte>, h: Sum)
    requires (s.stage == GetCBlock && AtGetCBlock(s, g, d, h)) || (s.stage == StoreCBlock && AtStoreCBlock(s, g, d, h))
    ensures BetweenBlocks(s, g, d, h) && PackedNext(g) && g.i < |g.f.blocks|
    ensures CBlockStored(s) < s.tmpInTarget == |g.f.blocks[g.i].bytes| + SumSize(g.f.info) <= |s.tmpIn|
    ensures s.stage == GetCBlock ==> CBlockStored(s) == 0
    ensures s.tmpIn[..CBlockStored(s)] + g.todo == CBlockFrom(g.f, g.i)
  {
    hide BetweenBlocks, CBlockFrom, SumSize;
    assert s.tmpIn[..0] + g.todo == g.todo;
  }

  lemma CBlockWaits(s: Fields, g: Progress, g': Progress, d: seq<byte>, h: Sum)
    requires BetweenBlocks(s, g', d, h) && PackedNext(g) && g' == g.(todo := g'.todo) && g.i < |g.f.blocks|
    requires s.tmpInSize < s.tmpInTarget == |g.f.blocks[g.i].bytes| + SumSize(g.f.info) <= |s.tmpIn|
    requires s.tmpIn[..s.tmpInSize] + g'.todo == CBlockFrom(g.f, g.i)
    ensures AtStoreCBlock(s, g', d, h)
  {
    hide BetweenBlocks, CBlockFrom, SumSize;
  }

  lemma CBlockParts(g: Progress)
    requires PackedNext(g)
    ensures var bytes := g.f.blocks[g.i].bytes;
            var n := |bytes| + SumSize(g.f.info);
            && n <= |CBlockFrom(g.f, g.i)| && CBlockFrom(g.f, g.i)[..n] == bytes + BlockSum(g.f.info, bytes)
            && CBlockFrom(g.f, g.i)[n..] == FrameFrom(g.f, g.i + 1) && |BlockSum(g.f.info, bytes)| == SumSize(g.f.info)
  {
    hide FrameFrom, BlockSum, SumSize;
    SumLength(g.f.info, g.f.blocks[g.i].bytes);
    CBlockSlices(g.f.blocks[g.i].bytes, BlockSum(g.f.info, g.f.blocks[g.i].bytes), FrameFrom(g.f, g.i + 1));
  }

  lemma SumLength(info: Info, bytes: seq<byte>)
    ensures |BlockSum(info, bytes)| == SumSize(info)
  {
    hide Checksum;
    ChecksumRead(bytes);
  }

  lemma CBlockSlices(a: seq<byte>, b: seq<byte>, c: seq<byte>)
    ensures (a + (b + c))[..|a| + |b|] == a + b && (a + (b + c))[|a| + |b|..] == c
  {
  }

  /** LZ4_decompress_safe_usingDict into `area`: `dict` lies right in front of it or
      elsewhere. */
  method DecompressBlock(src: seq<byte>, dict: seq<byte>, isPrefix: bool, area: seq<byte>, ghost out: seq<byte>)
    returns (n: nat, area': seq<byte>)
    requires Covers(dict, out) && Decodable(src, out) && |BlockContent(Packed(src), out)| <= |area| && area != []
    ensures |area'| == |area| && n == |BlockContent(Packed(src), out)| && area'[..n] == BlockContent(Packed(src), out)
  {
    hide Covers, Decodable, ParseBlock, Output, Reachable;
    DecodableCovers(src, dict, out);
    BlockParses(src, out);
    ghost var content := BlockContent(Packed(src), out);
    hide BlockContent;
    if isPrefix {
      n, area' := DecompressBehind(src, dict, area, content);
    } else {
      var mem := new byte[|area|](k requires 0 <= k < |area| => area[k]);
      var r;
      assert dict + mem[..0] == dict;
      if dict == [] {
        r := BlockApi.DecompressSafe(src, mem);
      } else {
        r := BlockApi.DecompressUsingDict(src, mem, 0, dict);
      }
      if r < 0 { assert false; }
      n, area' := r, mem[..];
      assert dict + mem[..n] == dict + content by { assert [] + mem[..n] == mem[..n]; }
      assert mem[..n] == (dict + mem[..n])[|dict|..] == (dict + content)[|dict|..] == content;
      assert area'[..n] == mem[..n];
    }
  }

  /** Prefix mode: the dictionary is right in front of the area. */
  method DecompressBehind(src: seq<byte>, dict: seq<byte>, area: seq<byte>, ghost content: seq<byte>)
    returns (n: nat, area': seq<byte>)
    requires Decodable(src, dict) && ParseBlock(src).Some? && Output(dict, ParseBlock(src).value) == dict + content
    requires |content| <= |area| && area != []
    ensures |area'| == |area| && n == |content| && area'[..n] == content
  {
    hide Decodable, ParseBlock, Output, Reachable;
    var start, all := |dict|, dict + area;
    var mem := new byte[|all|](k requires 0 <= k < |all| => all[k]);
    assert mem[..start] == dict && [] + mem[..start] == dict;
    var r := BlockApi.DecompressUsingDict(src, mem, start, []);
    Fits(src, dict, content, mem.Length);
    if r < 0 { assert false; }
    n, area' := r, mem[start..];
    assert mem[..start + n] == dict + content by { assert [] + mem[..start + n] == mem[..start + n]; }
    assert mem[start..][..n] == mem[..start + n][start..] == content;
  }

  lemma Fits(src: seq<byte>, dict: seq<byte>, content: seq<byte>, room: nat)
    requires ParseBlock(src).Some? && Output(dict, ParseBlock(src).value) == dict + content && |dict| + |content| <= room
    ensures |Output(dict, ParseBlock(src).value)| <= room
  {
  }

  lemma BlockParses(src: seq<byte>, out: seq<byte>)
    requires Decodable(src, out)
    ensures ParseBlock(src).Some?
  {
  }

  /** The block without its checksum, which is verified. */
  method VerifyBlock(info: Info, selectedIn: seq<byte>, ghost bytes: seq<byte>) returns (b: seq<byte>)
    requires selectedIn == bytes + BlockSum(info, bytes)
    ensures b == bytes
  {
    hide Checksum, ReadLE, Xxh32.Hash;
    SumLength(info, bytes);
    var n := |selectedIn| - SumSize(info);
    b := selectedIn[..n];
    if info.blockChecksum {
      ChecksumRead(bytes);
      var calcCRC := Xxh32.OneShot(b, 0);
      assert selectedIn[n..] == Checksum(bytes);
      if ReadLE(selectedIn[n..]) != calcCRC { assert false; }
    }
  }

  /** The dictionary handed to the block decoder. */
  method SelectDict(s: Fields, dst: array<byte>, ghost out: seq<byte>) returns (dict: seq<byte>)
    requires Hist(s, dst[..], out)
    ensures Covers(dict, History(s.info, out)) && (dict != [] ==> s.dict.buf != Nowhere)
  {
    HistBounds(s, dst[..], out);
    dict := DictBytes(s.dict, s.tmpOutBuffer, dst[..]);
    if s.dict.buf != Nowhere && s.dict.size > 0x4000_0000 {
      CoversTail(dict, out, KB64);
      dict := dict[|dict| - KB64..];
    }
    if !s.info.linked {
      NothingNeeded([]);
    }
  }

  /** A block is decoded and delivered. */
  lemma BlockDelivered(s: Fields, s': Fields, g: Progress, d: seq<byte>, d': seq<byte>, h: Sum, content: seq<byte>)
    requires BetweenBlocks(s, g, d, h) && PackedNext(g) && |s'.tmpOutBuffer| == |s.tmpOutBuffer|
    requires content == BlockContent(g.f.blocks[g.i], History(g.f.info, g.out))
    requires s' == s.(frameRemainingSize := Remaining(s, |content|), dict := s'.dict, tmpOutBuffer := s'.tmpOutBuffer, stage := s'.stage)
    requires Hist(s', d', g.out + content)
    ensures BetweenBlocks(s', g.(out := g.out + content, i := g.i + 1), d', Fed(h, ContentSumOn(s), content))
  {
    hide BlockContent;
    BeforeNext(g.f, g.i);
    hide FrameOk, Before, HistoryOk;
  }

  lemma BlockIsOk(s: Fields, g: Progress, d: seq<byte>, h: Sum)
    requires BetweenBlocks(s, g, d, h) && PackedNext(g)
    ensures var fb := g.f.blocks[g.i];
            && Hist(s, d, g.out) && Decodable(fb.bytes, History(s.info, g.out)) && fb == Packed(fb.bytes)
            && |BlockContent(fb, History(s.info, g.out))| <= s.maxBlockSize <= |s.tmpOutBuffer| && 0 < s.maxBlockSize
            && (s.info.linked ==> s.maxBlockSize + KB128 <= |s.tmpOutBuffer|)
  {
    hide FrameOk, Before, HistoryOk, Decodable, BlockContent;
    BeforeNext(g.f, g.i);
  }

  /** Decodes a block straight into the output. */
  method DecodeDirect(s: Fields, bytes: seq<byte>, dst: array<byte>, dstStart: nat, dstPtr: nat, dstEnd: nat, ghost g: Progress, ghost h: Sum)
    returns (s': Fields, n: nat, ghost g': Progress)
    requires BetweenBlocks(s, g, dst[..], h) && PackedNext(g) && bytes == g.f.blocks[g.i].bytes
    requires g.todo == FrameFrom(g.f, g.i + 1)
    requires OutputOk(dst[..], dstStart, dstPtr, dstEnd, g.out, s.dict) && dstPtr + s.maxBlockSize <= dstEnd
    modifies dst
    ensures |s'.tmpOutBuffer| == |s.tmpOutBuffer|
    ensures s' == s.(frameRemainingSize := s'.frameRemainingSize, dict := s'.dict, tmpOutBuffer := s'.tmpOutBuffer, stage := GetBlockHeader)
    ensures dstPtr + n <= dstEnd && SameOutside(old(dst[..]), dst[..], dstPtr, dstEnd)
    ensures g' == g.(out := g.out + dst[..][dstPtr..dstPtr + n], i := g.i + 1)
    ensures OutputOk(dst[..], dstStart, dstPtr + n, dstEnd, g'.out, s'.dict)
    ensures AtGetBlockHeader(s', g', dst[..], Fed(h, ContentSumOn(s), dst[..][dstPtr..dstPtr + n]))
  {
    hide BetweenBlocks, FrameFrom, Hist, OutputOk, BlockContent, SameOutside, History;
    ghost var d := dst[..];
    BlockRoom(s, g, d, h);
    OutputBounds(d, dstStart, dstPtr, dstEnd, g.out, s.dict);
    var isPrefix := s.dict.buf == InDst && s.dict.at + s.dict.size == dstPtr;
    var area;
    n, area := DecodeIntoArea(s, bytes, dst, isPrefix, dst[dstPtr..dstPtr + s.maxBlockSize], g, h);
    s' := Append(s, area, n, dst, dstStart, dstPtr, dstEnd, g.out);
    SameWider(d, dst[..], dstPtr, dstPtr + |area|, dstEnd);
    g' := g.(out := g.out + area[..n], i := g.i + 1);
    StageIsNotHistory(s', s'.(stage := GetBlockHeader), dst[..], g'.out);
    s' := s'.(stage := GetBlockHeader);
    BlockDelivered(s, s', g, d, dst[..], h, area[..n]);
  }

  /** Decodes block `i` with the history in force. */
  method DecodeIntoArea(s: Fields, bytes: seq<byte>, dst: array<byte>, isPrefix: bool, area: seq<byte>, ghost g: Progress, ghost h: Sum)
    returns (n: nat, area': seq<byte>)
    requires BetweenBlocks(s, g, dst[..], h) && PackedNext(g) && bytes == g.f.blocks[g.i].bytes
    requires |area| == s.maxBlockSize
    ensures |area'| == |area| && n <= |area'|
    ensures area'[..n] == BlockContent(g.f.blocks[g.i], History(g.f.info, g.out))
  {
    hide *;
    BlockIsOk(s, g, dst[..], h);
    SameFrame(s, g, dst[..], h);
    var dict := SelectDict(s, dst, g.out);
    n, area' := DecompressBlock(bytes, dict, isPrefix, area, History(s.info, g.out));
  }

  lemma BlockRoom(s: Fields, g: Progress, d: seq<byte>, h: Sum)
    requires BetweenBlocks(s, g, d, h)
    ensures Hist(s, d, g.out) && (s.info.linked ==> KB128 <= |s.tmpOutBuffer|)
  {
    hide FrameOk, Before, HistoryOk;
  }

  lemma StageIsNotHistory(s: Fields, s': Fields, d: seq<byte>, out: seq<byte>)
    requires Hist(s, d, out) && s' == s.(stage := s'.stage)
    ensures Hist(s', d, out)
  {
    hide HistoryOk;
  }

  lemma SameFrame(s: Fields, g: Progress, d: seq<byte>, h: Sum)
    requires BetweenBlocks(s, g, d, h)
    ensures s.info == g.f.info
  {
  }

  // ----- Blocks decoded into tmpOutBuffer -----

  /** The place of the next block in `tmpOutBuffer`: behind the dictionary if it is there,
      else behind room for 64 KB of it. */
  method PlaceTmpOut(s: Fields, ghost d: seq<byte>, ghost out: seq<byte>) returns (s': Fields, at: nat)
    requires HistoryOk(s.dict, s.tmpOutBuffer, d, out) && s.maxBlockSize + KB128 <= |s.tmpOutBuffer|
    ensures s' == s.(dict := s'.dict, tmpOutBuffer := s'.tmpOutBuffer) && |s'.tmpOutBuffer| == |s.tmpOutBuffer|
    ensures HistoryOk(s'.dict, s'.tmpOutBuffer, d, out) && s'.dict.buf == s.dict.buf && (s.dict.buf == InDst ==> s'.dict == s.dict)
    ensures at + s.maxBlockSize <= |s'.tmpOutBuffer| && Min(KB64, |out|) <= at <= s'.dict.size
    ensures s'.dict.buf == InTmp ==> at == s'.dict.size && s'.dict.at == 0
  {
    hide Covers;
    CoversLength(DictBytes(s.dict, s.tmpOutBuffer, d), out);
    s' := s;
    if s.dict.buf == InTmp {
      if s.dict.size > KB128 {
        var kept := Last(s.tmpOutBuffer[..s.dict.size], KB64);
        CoversTail(s.tmpOutBuffer[..s.dict.size], out, KB64);
        s' := s.(tmpOutBuffer := Front(s.tmpOutBuffer, kept, []), dict := Dict(InTmp, 0, KB64));
      }
      at := s'.dict.size;
    } else {
      at := Min(s.dict.size, KB64);
    }
  }

  lemma CoversLength(region: seq<byte>, out: seq<byte>)
    requires Covers(region, out)
    ensures Min(KB64, |out|) <= |region|
  {
  }

  /** A block decoded behind its history is ready to be flushed. */
  lemma TmpReady(dict: Dict, tmp: seq<byte>, d: seq<byte>, out: seq<byte>, at: nat, area: seq<byte>, n: nat)
    requires HistoryOk(dict, tmp, d, out) && at + |area| <= |tmp| && n <= |area|
    requires Min(KB64, |out|) <= at <= dict.size && (dict.buf == InTmp ==> at == dict.size && dict.at == 0)
    ensures FlushOk(dict, Replace(tmp, at, area), d, TmpOut(at, n, 0), 0, out)
    ensures Replace(tmp, at, area)[at..at + n] == area[..n]
  {
    var tmp' := Replace(tmp, at, area);
    assert tmp'[at..at + n] == tmp'[at..at + |area|][..n] == area[..n];
    assert Last(out, 0) == [];
    if dict.buf == InTmp {
      assert DictBytes(dict, tmp, d) == tmp[..at];
      hide Covers;
      assert tmp'[..at + n] == tmp[..at] + area[..n];
      CoversAppend(tmp[..at], out, area[..n]);
    } else {
      hide Covers;
      assert DictBytes(dict, tmp', d) == DictBytes(dict, tmp, d);
    }
  }

  /** Decodes a block into `tmpOutBuffer`. */
  method DecodeToTmp(s: Fields, bytes: seq<byte>, dst: array<byte>, ghost g: Progress, ghost h: Sum)
    returns (s': Fields, content: seq<byte>, ghost g': Progress)
    requires BetweenBlocks(s, g, dst[..], h) && PackedNext(g) && bytes == g.f.blocks[g.i].bytes
    requires g.todo == FrameFrom(g.f, g.i + 1)
    ensures |s'.tmpOutBuffer| == |s.tmpOutBuffer| && (s'.dict.buf == InDst ==> s'.dict == s.dict)
    ensures s' == s.(frameRemainingSize := s'.frameRemainingSize, dict := s'.dict, tmpOutBuffer := s'.tmpOutBuffer,
                     t := s'.t, stage := FlushOut)
    ensures g' == g.(i := g.i + 1) && AtFlushOut(s', g', dst[..], Fed(h, ContentSumOn(s), content))
  {
    hide BetweenBlocks, FrameFrom, HistoryOk, Decodable, Covers, BlockContent, InBounds, Replace, AtFlushOut;
    BlockIsOk(s, g, dst[..], h);
    SameFrame(s, g, dst[..], h);
    s' := s;
    var at := 0;
    if s.info.linked {
      s', at := PlaceTmpOut(s, dst[..], g.out);
    }
    TmpPlaced(s, s', g, dst[..], h);
    s', content, g' := DecodeAt(s', at, bytes, dst, g, h);
  }

  /** ... at a place in `tmpOutBuffer`. */
  method DecodeAt(s: Fields, at: nat, bytes: seq<byte>, dst: array<byte>, ghost g: Progress, ghost h: Sum)
    returns (s': Fields, content: seq<byte>, ghost g': Progress)
    requires BetweenBlocks(s, g, dst[..], h) && PackedNext(g) && bytes == g.f.blocks[g.i].bytes
    requires g.todo == FrameFrom(g.f, g.i + 1)
    requires at + s.maxBlockSize <= |s.tmpOutBuffer| && (!s.info.linked ==> at == 0)
    requires s.info.linked ==> Min(KB64, |g.out|) <= at <= s.dict.size && (s.dict.buf == InTmp ==> at == s.dict.size && s.dict.at == 0)
    ensures |s'.tmpOutBuffer| == |s.tmpOutBuffer|
    ensures s' == s.(frameRemainingSize := s'.frameRemainingSize, tmpOutBuffer := s'.tmpOutBuffer, t := s'.t, stage := FlushOut)
    ensures g' == g.(i := g.i + 1) && AtFlushOut(s', g', dst[..], Fed(h, ContentSumOn(s), content))
  {
    hide BetweenBlocks, FrameFrom, BlockContent, Replace, AtFlushOut;
    var n, area := DecodeIntoArea(s, bytes, dst, s.dict.buf == InTmp, s.tmpOutBuffer[at..at + s.maxBlockSize], g, h);
    content := area[..n];
    s' := s.(tmpOutBuffer := Replace(s.tmpOutBuffer, at, area), t := TmpOut(at, n, 0),
             frameRemainingSize := Remaining(s, n), stage := FlushOut);
    g' := g.(i := g.i + 1);
    BlockWaits(s, s', g, dst[..], h, at, area, n);
  }

  lemma TmpPlaced(s: Fields, s': Fields, g: Progress, d: seq<byte>, h: Sum)
    requires BetweenBlocks(s, g, d, h) && s' == s.(dict := s'.dict, tmpOutBuffer := s'.tmpOutBuffer)
    requires |s'.tmpOutBuffer| == |s.tmpOutBuffer| && Hist(s', d, g.out)
    ensures BetweenBlocks(s', g, d, h)
  {
    hide FrameOk, Before, Hist;
  }

  lemma BlockWaits(s: Fields, s': Fields, g: Progress, d: seq<byte>, h: Sum, at: nat, area: seq<byte>, n: nat)
    requires BetweenBlocks(s, g, d, h) && PackedNext(g) && g.todo == FrameFrom(g.f, g.i + 1)
    requires at + |area| <= |s.tmpOutBuffer| && n <= |area| && (!s.info.linked ==> at == 0)
    requires s' == s.(tmpOutBuffer := Replace(s.tmpOutBuffer, at, area), t := TmpOut(at, n, 0),
                      frameRemainingSize := Remaining(s, n), stage := FlushOut)
    requires s.info.linked ==> Min(KB64, |g.out|) <= at <= s.dict.size && (s.dict.buf == InTmp ==> at == s.dict.size && s.dict.at == 0)
    requires area[..n] == BlockContent(g.f.blocks[g.i], History(g.f.info, g.out))
    ensures AtFlushOut(s', g.(i := g.i + 1), d, Fed(h, ContentSumOn(s), area[..n]))
  {
    hide BlockContent, FrameFrom, FlushOk, HistoryOk, Replace, InBounds, FrameOk, Before;
    NextBefore(s, g, d, h);
    ReplacedSlice(s.tmpOutBuffer, at, area, n);
    if s.info.linked {
      TmpReady(s.dict, s.tmpOutBuffer, d, g.out, at, area, n);
    }
  }

  lemma NextBefore(s: Fields, g: Progress, d: seq<byte>, h: Sum)
    requires BetweenBlocks(s, g, d, h) && PackedNext(g)
    ensures Before(g.f, g.i + 1) == g.out + BlockContent(g.f.blocks[g.i], History(g.f.info, g.out))
  {
    BeforeNext(g.f, g.i);
  }

  lemma ReplacedSlice(tmp: seq<byte>, at: nat, area: seq<byte>, n: nat)
    requires at + |area| <= |tmp| && n <= |area|
    ensures Replace(tmp, at, area)[at..at + n] == area[..n]
  {
    assert Replace(tmp, at, area)[at..at + n] == Replace(tmp, at, area)[at..at + |area|][..n];
  }

  // ----- Flushing -----

  lemma FlushBounds(s: Fields, d: seq<byte>, out: seq<byte>)
    requires FlushHist(s, d, out)
    ensures InBounds(s.dict, s.tmpOutBuffer, d)
  {
    hide Delivered, Covers;
  }

  /** `FlushOk` takes the number of delivered bytes as an argument only. */
  lemma StartMoves(dict: Dict, tmp: seq<byte>, d: seq<byte>, t: TmpOut, start: nat, out: seq<byte>)
    requires FlushOk(dict, tmp, d, t, start, out)
    ensures FlushOk(dict, tmp, d, t.(start := start), start, out)
  {
    hide Covers;
  }

  /** Delivers `n` bytes of the waiting block. */
  method FlushBytes(s: Fields, n: nat, dst: array<byte>, dstStart: nat, dstPtr: nat, ghost dstEnd: nat, ghost out: seq<byte>)
    returns (s': Fields)
    requires s.t.start + n <= s.t.size && s.t.at + s.t.size <= |s.tmpOutBuffer|
    requires OutputOk(dst[..], dstStart, dstPtr, dstEnd, out, s.dict) && dstPtr + n <= dstEnd
    requires FlushHist(s, dst[..], out) && (s.info.linked ==> KB128 <= |s.tmpOutBuffer|)
    modifies dst
    ensures |s'.tmpOutBuffer| == |s.tmpOutBuffer|
    ensures s' == s.(dict := s'.dict, tmpOutBuffer := s'.tmpOutBuffer, t := s.t.(start := s.t.start + n))
    ensures s'.tmpOutBuffer[s.t.at..] == s.tmpOutBuffer[s.t.at..]
    ensures var x := s.tmpOutBuffer[s.t.at + s.t.start..s.t.at + s.t.start + n];
      && FlushHist(s', dst[..], out + x) && dst[..][dstPtr..dstPtr + n] == x
      && OutputOk(dst[..], dstStart, dstPtr + n, dstEnd, out + x, s'.dict)
    ensures SameOutside(old(dst[..]), dst[..], dstPtr, dstPtr + n)
  {
    hide FlushOk, Last, SameOutside;
    ghost var d := dst[..];
    var x := s.tmpOutBuffer[s.t.at + s.t.start..s.t.at + s.t.start + n];
    FlushBounds(s, d, out);
    WriteOut(dst, dstPtr, x);
    ghost var d' := dst[..];
    DictOutside(d, d', dstStart, dstPtr, dstPtr + n, dstEnd, out, s.dict, s.tmpOutBuffer);
    assert d'[dstStart..dstPtr] == dst[dstStart..dstPtr] && d'[dstPtr..dstPtr + n] == dst[dstPtr..dstPtr + n];
    s' := s;
    if s.info.linked {
      FlushKept(s.dict, s.tmpOutBuffer, d, d', s.t, s.t.start, out);
      s' := UpdateDict(s, dst, dstPtr, n, dstStart, true, out);
      StartMoves(s'.dict, s'.tmpOutBuffer, d', s.t, s.t.start + n, out + x);
    }
    OutputGrows(d, d', dstStart, dstPtr, dstEnd, out, s.dict, x, s'.dict);
    s' := s'.(t := s.t.(start := s.t.start + n));
  }

  /** dstage_flushOut. */
  method StageFlushOut(s: Fields, dst: array<byte>, dstStart: nat, dstPtr: nat, dstEnd: nat, ghost g: Progress, ghost h: Sum)
    returns (s': Fields, n: nat, another: bool, ghost g': Progress)
    requires s.stage == FlushOut && AtFlushOut(s, g, dst[..], h)
    requires OutputOk(dst[..], dstStart, dstPtr, dstEnd, g.out, s.dict)
    modifies dst
    ensures |s'.tmpOutBuffer| == |s.tmpOutBuffer| && dstPtr + n <= dstEnd
    ensures s' == s.(dict := s'.dict, tmpOutBuffer := s'.tmpOutBuffer, t := s'.t, stage := s'.stage)
    ensures g' == g.(out := g.out + dst[..][dstPtr..dstPtr + n])
    ensures SameOutside(old(dst[..]), dst[..], dstPtr, dstPtr + n) && OutputOk(dst[..], dstStart, dstPtr + n, dstEnd, g'.out, s'.dict)
    ensures if another then s'.stage == GetBlockHeader && AtGetBlockHeader(s', g', dst[..], h)
            else s'.stage == FlushOut && AtFlushOut(s', g', dst[..], h) && dstPtr + n == dstEnd && g'.todo != []
  {
    hide AtFlushOut, OutputOk, SameOutside, FlushHist, AtGetBlockHeader;
    FlushRoom(s, g, dst[..], h);
    OutputBounds(dst[..], dstStart, dstPtr, dstEnd, g.out, s.dict);
    ghost var d := dst[..];
    n := Min(s.t.size - s.t.start, dstEnd - dstPtr);
    s' := FlushBytes(s, n, dst, dstStart, dstPtr, dstEnd, g.out);
    g' := g.(out := g.out + dst[..][dstPtr..dstPtr + n]);
    FlushedSome(s, s', g, d, dst[..], h, n);
    another := s'.t.start == s'.t.size;
    if another {
      FlushedAll(s', g', dst[..], h);
      s' := s'.(stage := GetBlockHeader);
    }
  }

  lemma FlushRoom(s: Fields, g: Progress, d: seq<byte>, h: Sum)
    requires AtFlushOut(s, g, d, h)
    ensures s.t.start <= s.t.size && s.t.at + s.t.size <= |s.tmpOutBuffer| && FlushHist(s, d, g.out)
    ensures (s.info.linked ==> KB128 <= |s.tmpOutBuffer|) && g.todo != []
  {
    hide FrameOk, Before, FlushHist, FrameFrom;
    FrameGoesOn(g.f, g.i);
  }

  lemma FlushedSome(s: Fields, s': Fields, g: Progress, d: seq<byte>, d': seq<byte>, h: Sum, n: nat)
    requires AtFlushOut(s, g, d, h) && s.t.start + n <= s.t.size && |s'.tmpOutBuffer| == |s.tmpOutBuffer|
    requires s' == s.(dict := s'.dict, tmpOutBuffer := s'.tmpOutBuffer, t := s.t.(start := s.t.start + n))
    requires s.t.at <= |s.tmpOutBuffer| && s'.tmpOutBuffer[s.t.at..] == s.tmpOutBuffer[s.t.at..]
    requires var x := s.tmpOutBuffer[s.t.at + s.t.start..s.t.at + s.t.start + n]; FlushHist(s', d', g.out + x)
    ensures var x := s.tmpOutBuffer[s.t.at + s.t.start..s.t.at + s.t.start + n];
            AtFlushOut(s', g.(out := g.out + x), d', h)
  {
    hide FrameOk, Before, FlushHist, FrameFrom;
    SliceBehind(s.tmpOutBuffer, s'.tmpOutBuffer, s.t.at, s.t.start + n, s.t.size);
    assert Pending(s) == s.tmpOutBuffer[s.t.at + s.t.start..s.t.at + s.t.start + n] + Pending(s');
  }

  lemma FlushedAll(s: Fields, g: Progress, d: seq<byte>, h: Sum)
    requires AtFlushOut(s, g, d, h) && s.t.start == s.t.size
    ensures AtGetBlockHeader(s.(stage := GetBlockHeader), g, d, h)
  {
    hide FrameOk, Before, FlushOk, FrameFrom, HistoryOk;
    assert Pending(s) == [];
    assert g.out + [] == g.out;
    if s.info.linked {
      FlushEnds(s.dict, s.tmpOutBuffer, d, s.t, g.out);
    }
  }

  lemma FlushEnds(dict: Dict, tmp: seq<byte>, d: seq<byte>, t: TmpOut, out: seq<byte>)
    requires FlushOk(dict, tmp, d, t, t.size, out)
    ensures HistoryOk(dict, tmp, d, out)
  {
    hide Covers, Delivered;
    assert t.at + t.size <= |tmp| by { FlushInTmp(dict, tmp, d, t, out); }
    assert tmp[t.at + t.size..t.at + t.size] == [];
    assert out + [] == out;
  }

  lemma FlushInTmp(dict: Dict, tmp: seq<byte>, d: seq<byte>, t: TmpOut, out: seq<byte>)
    requires FlushOk(dict, tmp, d, t, t.size, out)
    ensures t.at + t.size <= |tmp|
  {
  }

  // ----- The end of the frame -----

  /** dstage_getSuffix and dstage_storeSuffix.  `complete` when the frame is done; then
      `readCRC` is the content checksum, if there is one. */
  method StageSuffix(s: Fields, src: seq<byte>, at: nat, ghost g: Progress, ghost h: Sum)
    returns (s': Fields, at': nat, complete: bool, readCRC: nat, ghost g': Progress)
    requires Agrees(src, at, g.todo)
    requires (s.stage == GetSuffix && AtGetSuffix(s, g, h)) || (s.stage == StoreSuffix && AtStoreSuffix(s, g, h))
    ensures |s'.tmpIn| == |s.tmpIn| && s' == s.(stage := s'.stage, tmpIn := s'.tmpIn, tmpInSize := s'.tmpInSize)
    ensures at <= at' && at' - at <= |g.todo| && g' == g.(todo := g.todo[at' - at..]) && Agrees(src, at', g'.todo)
    ensures !complete ==>
      s'.stage == StoreSuffix && AtStoreSuffix(s', g', h) && at' == |src| && g'.todo != [] && s'.tmpInSize < 4
    ensures complete ==>
      && g'.todo == [] && g.out == FrameContent(g.f) && s'.frameRemainingSize == 0 && s.info == g.f.info && Hashed(s, h, g.out)
      && (s.info.contentChecksum ==> readCRC == Xxh32.Hash(g.out, 0))
  {
    hide *;
    SuffixAhead(s, g, h);
    if s.stage == GetSuffix {
      if s.frameRemainingSize != 0 { assert false; }
    }
    if !s.info.contentChecksum {
      NothingRead(src, at, g);
      return s, at, true, 0, g;
    }
    var tmpIn, have, direct;
    ghost var todo;
    direct, tmpIn, have, at', complete, readCRC, todo :=
      ReadChecksum(s.stage == GetSuffix, s.tmpIn, SuffixStored(s), src, at, g.todo, g.out);
    g' := g.(todo := todo);
    s' := if direct then s else s.(tmpIn := tmpIn, tmpInSize := have, stage := StoreSuffix);
    if !complete {
      SuffixWaits(s, s', g, g', h);
    }
  }

  /** How much of the content checksum is stored. */
  function SuffixStored(s: Fields): nat {
    if s.stage == GetSuffix then 0 else s.tmpInSize
  }

  lemma SuffixAhead(s: Fields, g: Progress, h: Sum)
    requires (s.stage == GetSuffix && AtGetSuffix(s, g, h)) || (s.stage == StoreSuffix && AtStoreSuffix(s, g, h))
    ensures s.frameRemainingSize == 0 && s.info == g.f.info && SuffixStored(s) < 4 <= |s.tmpIn|
    ensures g.out == FrameContent(g.f) && Hashed(s, h, g.out) && (s.stage == GetSuffix ==> SuffixStored(s) == 0)
    ensures if s.info.contentChecksum then s.tmpIn[..SuffixStored(s)] + g.todo == Checksum(g.out) else g.todo == []
  {
    hide BlocksOk, InfoOk, FrameContent, Checksum;
    assert s.tmpIn[..0] + g.todo == g.todo;
  }

  lemma NothingRead(src: seq<byte>, at: nat, g: Progress)
    requires Agrees(src, at, g.todo)
    ensures at <= |src| && g == g.(todo := g.todo[at - at..]) && Agrees(src, at, g.todo[at - at..])
  {
  }

  lemma SuffixWaits(s: Fields, s': Fields, g: Progress, g': Progress, h: Sum)
    requires (s.stage == GetSuffix && AtGetSuffix(s, g, h)) || (s.stage == StoreSuffix && AtStoreSuffix(s, g, h))
    requires s' == s.(stage := StoreSuffix, tmpIn := s'.tmpIn, tmpInSize := s'.tmpInSize) && |s'.tmpIn| == |s.tmpIn|
    requires g' == g.(todo := g'.todo) && s.info.contentChecksum && s'.tmpInSize < 4 <= |s'.tmpIn|
    requires s'.tmpIn[..s'.tmpInSize] + g'.todo == Checksum(g.out)
    ensures AtStoreSuffix(s', g', h)
  {
    hide FrameOk, FrameContent, Checksum;
    SuffixAhead(s, g, h);
  }

  /** Four bytes of checksum of `x`, from the input or collected. */
  method ReadChecksum(fresh': bool, buf: seq<byte>, have: nat, src: seq<byte>, at: nat, ghost todo: seq<byte>, ghost x: seq<byte>)
    returns (direct: bool, buf': seq<byte>, have': nat, at': nat, complete: bool, readCRC: nat, ghost todo': seq<byte>)
    requires have < 4 <= |buf| && Agrees(src, at, todo) && buf[..have] + todo == Checksum(x) && (fresh' ==> have == 0)
    ensures |buf'| == |buf| && at <= at' <= |src| && at' - at <= |todo|
    ensures todo' == todo[at' - at..] && Agrees(src, at', todo')
    ensures !complete ==> !direct && have' < 4 && at' == |src| && buf'[..have'] + todo' == Checksum(x) && todo' != []
    ensures complete ==> at < at' && todo' == [] && readCRC == Xxh32.Hash(x, 0)
  {
    hide Checksum, ReadLE;
    ChecksumRead(x);
    direct := fresh' && |src| - at >= 4;
    var selectedIn;
    buf', have', at', complete, selectedIn, todo' := Collect(buf, have, 4, src, at, direct, todo, Checksum(x));
    assert Checksum(x)[..4] == Checksum(x);
    readCRC := ReadLE(selectedIn);
  }

  // ----- The context -----

  predicate InSuffix(stage: Stage) { stage == GetSuffix || stage == StoreSuffix }

  /** The dictionary as far as it matters: behind the last block it does not. */
  function LiveDict(s: Fields): Dict {
    if InSuffix(s.stage) then Dict(Nowhere, 0, 0) else s.dict
  }

  /** How far a stage is from reading input again. */
  function Rank(stage: Stage): nat {
    match stage
    case GetBlockHeader => 1
    case GetBlockChecksum => 2
    case _ => 3
  }

  /** A context that waits for a frame. */
  predicate IdleFields(s: Fields) {
    s.stage == GetFrameHeader && s.frameRemainingSize == 0 && s.dict == Dict(Nowhere, 0, 0) && !s.skipChecksum
  }

  /** Fields that no block stage touches. */
  lemma BuffersKept(s: Fields, s': Fields)
    requires BuffersOk(s) && |s'.header| == |s.header| && |s'.tmpIn| == |s.tmpIn|
    requires |s'.tmpOutBuffer| == |s.tmpOutBuffer| && s'.maxBufferSize == s.maxBufferSize
    ensures BuffersOk(s')
  {
    OldBuffers(s);
    SameBuffers(s, s');
  }

  /** Once checksums are skipped, nothing is claimed of them. */
  lemma SkipChecksum(s: Fields, g: Progress, d: seq<byte>, h: Sum, bh: Sum, skip: bool)
    requires AtStage(s, g, d, h, bh)
    ensures AtStage(s.(skipChecksum := s.skipChecksum || skip), g, d, h, bh)
  {
    hide FrameOk, FrameFrom, EncodeFrame, HeaderSize, Before, FrameContent, HistoryOk, FlushOk, Checksum, CBlockFrom, BlockSum;
  }

  /** The history does not depend on the output buffer unless the dictionary lies there. */
  lemma OtherOutput(s: Fields, g: Progress, d: seq<byte>, d': seq<byte>, h: Sum, bh: Sum)
    requires AtStage(s, g, d, h, bh) && LiveDict(s).buf != InDst
    ensures AtStage(s, g, d', h, bh)
  {
    hide FrameOk, FrameFrom, EncodeFrame, HeaderSize, Before, FrameContent, Checksum, CBlockFrom, BlockSum, Covers, Delivered;
  }

  method SuffixRead(s: Fields, src: seq<byte>, at: nat, ghost g: Progress, ghost d: seq<byte>, ghost h: Sum, ghost bh: Sum)
    returns (s': Fields, at': nat, complete: bool, readCRC: nat, ghost g': Progress)
    requires AtStage(s, g, d, h, bh) && Agrees(src, at, g.todo) && InSuffix(s.stage)
    ensures |s'.tmpIn| == |s.tmpIn| && s' == s.(stage := s'.stage, tmpIn := s'.tmpIn, tmpInSize := s'.tmpInSize)
    ensures at <= at' && at' - at <= |g.todo| && g' == g.(todo := g.todo[at' - at..]) && Agrees(src, at', g'.todo)
    ensures !complete ==>
      && AtStage(s', g', d, h, bh) && InSuffix(s'.stage) && s'.stage == StoreSuffix
      && at' == |src| && g'.todo != [] && s'.tmpInSize < 4
    ensures complete ==>
      && g'.todo == [] && g'.out == FrameContent(g'.f) && s'.frameRemainingSize == 0 && Hashed(s', h, g'.out)
      && (s'.info.contentChecksum ==> readCRC == Xxh32.Hash(g'.out, 0))
  {
    hide AtGetSuffix, AtStoreSuffix, FrameContent, Xxh32.Hash, Agrees;
    s', at', complete, readCRC, g' := StageSuffix(s, src, at, g, h);
  }

  function ZeroFields(): (s: Fields)
    ensures BuffersOk(s) && IdleFields(s)
  {
    Fields(GetFrameHeader, Info(true, false, false, None, None, 4), 0, 0, 0, [], 0, 0, [],
           Dict(Nowhere, 0, 0), TmpOut(0, 0, 0), false, seq(HEADER_SIZE_MAX, _ => 0))
  }

  lemma DictMoves(d: seq<byte>, dstStart: nat, dstPtr: nat, dstEnd: nat, out: seq<byte>, dict: Dict, dict': Dict)
    requires OutputOk(d, dstStart, dstPtr, dstEnd, out, dict) && (dict'.buf == InDst ==> dict' == dict)
    ensures OutputOk(d, dstStart, dstPtr, dstEnd, out, dict')
  {
  }

  lemma DictRests(d: seq<byte>, dstStart: nat, dstPtr: nat, dstEnd: nat, out: seq<byte>, dict: Dict, dict': Dict)
    requires OutputOk(d, dstStart, dstPtr, dstEnd, out, dict) && (dict' == dict || dict'.buf != InDst)
    ensures OutputOk(d, dstStart, dstPtr, dstEnd, out, dict')
  {
  }

  lemma DictInDst(s: Fields, g: Progress, d: seq<byte>, h: Sum, bh: Sum)
    requires AtStage(s, g, d, h, bh)
    ensures LiveDict(s).buf == InDst ==>
      s.info.linked && s.stage != GetFrameHeader && s.stage != StoreFrameHeader && s.stage != Init
    ensures LiveDict(s).buf == InDst ==>
      KB128 <= |s.tmpOutBuffer| &&
      if s.stage == FlushOut then FlushOk(s.dict, s.tmpOutBuffer, d, s.t, s.t.start, g.out)
      else HistoryOk(s.dict, s.tmpOutBuffer, d, g.out)
  {
    hide FrameOk, FrameFrom, EncodeFrame, HeaderSize, Before, FrameContent, HistoryOk, FlushOk, Checksum, CBlockFrom, BlockSum;
  }

  /** The last 64 KB of the history move to the front of `tmpOutBuffer`. */
  method KeepInTmp(s: Fields, dst: array<byte>, ghost out: seq<byte>) returns (s': Fields)
    requires KB128 <= |s.tmpOutBuffer| && HistoryOk(s.dict, s.tmpOutBuffer, dst[..], out)
    ensures |s'.tmpOutBuffer| == |s.tmpOutBuffer| && s' == s.(dict := s'.dict, tmpOutBuffer := s'.tmpOutBuffer, t := s'.t)
    ensures s'.dict.buf == InTmp && HistoryOk(s'.dict, s'.tmpOutBuffer, dst[..], out)
  {
    hide HistoryOk, DictBytes, Last, Front, InBounds;
    HistoryInBounds(s.dict, s.tmpOutBuffer, dst[..], out);
    var bytes := DictBytes(s.dict, s.tmpOutBuffer, dst[..]);
    var newDictSize := Min(s.dict.size, KB64);
    var tmp := Front(s.tmpOutBuffer, Last(bytes, newDictSize), []);
    assert out + [] == out;
    JoinInTmp(s.dict, s.tmpOutBuffer, dst[..], out, newDictSize, [], tmp);
    s' := s.(tmpOutBuffer := tmp, dict := Dict(InTmp, 0, newDictSize), t := s.t.(at := newDictSize));
  }

  /** The history elsewhere serves as well. */
  lemma HistoryMoved(s: Fields, s': Fields, g: Progress, d: seq<byte>, h: Sum, bh: Sum)
    requires AtStage(s, g, d, h, bh) && s.info.linked && LiveDict(s).buf == InDst && |s'.tmpOutBuffer| == |s.tmpOutBuffer|
    requires s' == s.(dict := s'.dict, tmpOutBuffer := s'.tmpOutBuffer, t := s'.t) && s.stage != FlushOut
    requires HistoryOk(s'.dict, s'.tmpOutBuffer, d, g.out)
    ensures AtStage(s', g, d, h, bh)
  {
    hide BetweenBlocks, RawNext, PackedNext, EncodeFrame, FrameFrom, FrameContent, HistoryOk, FlushOk, Checksum, CBlockFrom, BlockSum,
      AtFlushOut, AtGetFrameHeader, AtStoreFrameHeader, AtInit, AtGetSuffix, AtStoreSuffix;
    DictInDst(s, g, d, h, bh);
    if s.stage == CopyDirect {
      RawHistoryMoved(s, s', g, d, h, bh, s.tmpInTarget);
    } else if s.stage == GetBlockChecksum {
      RawHistoryMoved(s, s', g, d, h, bh, 0);
    } else {
      TmpPlacedAnew(s, s', g, d, h);
    }
  }

  lemma TmpPlacedAnew(s: Fields, s': Fields, g: Progress, d: seq<byte>, h: Sum)
    requires BetweenBlocks(s, g, d, h) && s.info.linked && |s'.tmpOutBuffer| == |s.tmpOutBuffer|
    requires s' == s.(dict := s'.dict, tmpOutBuffer := s'.tmpOutBuffer, t := s'.t)
    requires HistoryOk(s'.dict, s'.tmpOutBuffer, d, g.out)
    ensures BetweenBlocks(s', g, d, h)
  {
    hide FrameOk, Before, HistoryOk;
  }

  lemma RawHistoryMoved(s: Fields, s': Fields, g: Progress, d: seq<byte>, h: Sum, bh: Sum, left: nat)
    requires RawNext(s, g, d, h, bh, left) && s.info.linked && |s'.tmpOutBuffer| == |s.tmpOutBuffer|
    requires s' == s.(dict := s'.dict, tmpOutBuffer := s'.tmpOutBuffer, t := s'.t)
    requires HistoryOk(s'.dict, s'.tmpOutBuffer, d, g.out)
    ensures RawNext(s', g, d, h, bh, left)
  {
    hide FrameOk, Before, HistoryOk;
  }

  lemma FlushHistoryMoved(s: Fields, s': Fields, g: Progress, d: seq<byte>, h: Sum)
    requires AtFlushOut(s, g, d, h) && s.info.linked && |s'.tmpOutBuffer| == |s.tmpOutBuffer|
    requires s' == s.(dict := s'.dict, tmpOutBuffer := s'.tmpOutBuffer)
    requires s.t.at <= |s.tmpOutBuffer| && s'.tmpOutBuffer[s.t.at..] == s.tmpOutBuffer[s.t.at..]
    requires FlushOk(s'.dict, s'.tmpOutBuffer, d, s'.t, s'.t.start, g.out)
    ensures AtFlushOut(s', g, d, h)
  {
    hide FrameOk, FrameFrom, Before, FlushOk;
    SliceBehind(s.tmpOutBuffer, s'.tmpOutBuffer, s.t.at, s.t.start, s.t.size);
  }

  /** The history leaves the output buffer. */
  method MoveHistory(s: Fields, dst: array<byte>, ghost g: Progress, ghost h: Sum, ghost bh: Sum) returns (s': Fields)
    requires AtStage(s, g, dst[..], h, bh) && LiveDict(s).buf == InDst
    ensures |s'.tmpOutBuffer| == |s.tmpOutBuffer| && s' == s.(dict := s'.dict, tmpOutBuffer := s'.tmpOutBuffer, t := s'.t)
    ensures AtStage(s', g, dst[..], h, bh) && s'.dict.buf != InDst
  {
    hide AtStage, HistoryOk, FlushOk, AtFlushOut;
    DictInDst(s, g, dst[..], h, bh);
    if s.stage == FlushOut {
      FlushStage(s, g, dst[..], h, bh);
      s' := Preserve(s, dst, g.out);
      FlushHistoryMoved(s, s', g, dst[..], h);
      FlushStage(s', g, dst[..], h, bh);
    } else {
      s' := KeepInTmp(s, dst, g.out);
      HistoryMoved(s, s', g, dst[..], h, bh);
    }
  }

  lemma Starting(d: seq<byte>, dstStart: nat, dstEnd: nat, g: Progress)
    requires dstStart <= dstEnd <= |d|
    ensures SameOutside(d, d, dstStart, dstEnd) && d[dstStart..dstStart] == [] && g.out + [] == g.out && g.todo[0..] == g.todo
    ensures Last(g.out, 0) == []
  {
  }

  lemma AgreesBound(src: seq<byte>, at: nat, todo: seq<byte>)
    requires Agrees(src, at, todo)
    ensures at <= |src|
  {
  }

  lemma DictClear(d: seq<byte>, dstStart: nat, dstPtr: nat, dstEnd: nat, out: seq<byte>, dict: Dict)
    requires OutputOk(d, dstStart, dstPtr, dstEnd, out, dict)
    ensures dict.buf == InDst ==> dict.at + dict.size <= dstPtr || dstEnd <= dict.at
  {
  }

  /** One step after others. */
  lemma Onward(d0: seq<byte>, d1: seq<byte>, d2: seq<byte>, g0: Progress, g1: Progress, g2: Progress,
               dstStart: nat, p1: nat, p2: nat, dstEnd: nat, at1: nat, at2: nat)
    requires SameOutside(d0, d1, dstStart, dstEnd) && SameOutside(d1, d2, p1, dstEnd)
    requires dstStart <= p1 <= p2 <= dstEnd <= |d1|
    requires at1 <= at2 && at1 <= |g0.todo| && g1.todo == g0.todo[at1..] && at2 - at1 <= |g1.todo|
    requires g2.todo == g1.todo[at2 - at1..]
    requires g1.out == g0.out + d1[dstStart..p1] && g2.out == g1.out + d2[p1..p2]
    ensures SameOutside(d0, d2, dstStart, dstEnd) && at2 <= |g0.todo| && g2.todo == g0.todo[at2..]
    ensures g2.out == g0.out + d2[dstStart..p2]
  {
    assert d1[dstStart..p1] == d2[dstStart..p1];
    assert d2[dstStart..p2] == d2[dstStart..p1] + d2[p1..p2];
  }

  lemma FlushStage(s: Fields, g: Progress, d: seq<byte>, h: Sum, bh: Sum)
    requires s.stage == FlushOut
    ensures AtStage(s, g, d, h, bh) <==> AtFlushOut(s, g, d, h)
  {
  }

  lemma NoBlockSum(s: Fields, g: Progress, d: seq<byte>, h: Sum, bh: Sum)
    requires AtCopyDirect(s, g, d, h, Sum(0, [])) && !s.info.blockChecksum
    ensures AtCopyDirect(s, g, d, h, bh)
  {
    hide FrameOk, FrameFrom, Before, HistoryOk, BlockSum;
  }

  // ----- The hint -----

  lemma RestSize(f: Frame, i: nat)
    requires i <= |f.blocks|
    ensures if i == |f.blocks| then |FrameFrom(f, i)| == 4 + (if f.info.contentChecksum then 4 else 0)
            else |FrameFrom(f, i)| >= 4 + SumSize(f.info) + 4
  {
    hide WriteLE, Xxh32.Hash, FrameContent;
    if i < |f.blocks| {
      EncodeBlocksFirst(f.info, f.blocks[i..]);
    }
  }

  /** While a compressed block with a checksum is being read, four bytes too many are asked for:
      the checksum is counted twice. */
  predicate AsksForMore(s: Fields, g: Progress) {
    s.stage == StoreCBlock && s.info.blockChecksum && g.i + 1 == |g.f.blocks| && !s.info.contentChecksum
  }

  /** The hint never goes beyond the end of the frame, except in the last block of a frame
      with block checksums and without a content checksum: there it does, by four bytes. */
  lemma HintFits(s: Fields, g: Progress, d: seq<byte>, h: Sum, bh: Sum)
    requires AtStage(s, g, d, h, bh) && g.todo != []
    ensures HintOf(s) <= |g.todo| <==> !AsksForMore(s, g)
    ensures AsksForMore(s, g) ==> HintOf(s) == |g.todo| + 4
  {
    hide Before, FrameOk, HistoryOk, FlushOk, EncodeFrame, FrameFrom, Xxh32.Hash, WriteLE, FrameContent;
    match s.stage
    case GetFrameHeader => FrameSplits(g.f);
    case StoreFrameHeader => FrameSplits(g.f);
    case StoreBlockHeader => FrameGoesOn(g.f, g.i);
    case CopyDirect => FrameGoesOn(g.f, g.i + 1);
    case GetCBlock => FrameGoesOn(g.f, g.i + 1);
    case StoreCBlock => RestSize(g.f, g.i + 1);
    case FlushOut => FrameGoesOn(g.f, g.i);
    case _ =>
  }

  class Dctx {
    var fields: Fields
    const xxh: Xxh32.State
    const blockSum: Xxh32.State
    ghost var progress: Progress

    ghost predicate Sums()
      reads xxh, xxh.mem, blockSum, blockSum.mem
    {
      xxh.Valid() && blockSum.Valid() && xxh != blockSum && xxh.mem != blockSum.mem
    }

    ghost function ContentSum(): Sum
      reads xxh
    {
      Sum(xxh.seed, xxh.data)
    }

    ghost function RawSum(): Sum
      reads blockSum
    {
      Sum(blockSum.seed, blockSum.data)
    }

    /** In the middle of the frame `progress.f`. */
    ghost predicate Decoding(d: seq<byte>)
      reads this, xxh, xxh.mem, blockSum, blockSum.mem
    {
      Sums() && BuffersOk(fields) && AtStage(fields, progress, d, ContentSum(), RawSum())
    }

    ghost predicate Idle()
      reads this, xxh, xxh.mem, blockSum, blockSum.mem
    {
      Sums() && BuffersOk(fields) && IdleFields(fields)
    }

    /** LZ4F_createDecompressionContext: everything zero. */
    constructor ()
      ensures Idle() && fresh(xxh) && fresh(xxh.mem) && fresh(blockSum) && fresh(blockSum.mem)
    {
      hide ZeroFields, BuffersOk, IdleFields, Xxh32.State.Valid, Sums;
      fields := ZeroFields();
      xxh := new Xxh32.State(0);
      blockSum := new Xxh32.State(0);
      progress := Progress(Frame(ZeroFields().info, []), 0, [], []);
      new;
      SumsAreValid();
    }

    lemma SumsAreValid()
      requires xxh.Valid() && blockSum.Valid() && xxh != blockSum && xxh.mem != blockSum.mem
      ensures Sums()
    {
      hide Xxh32.State.Valid;
    }

    /** The frame that comes next. */
    ghost method Begin(f: Frame, d: seq<byte>)
      requires Idle() && FrameOk(f)
      modifies this`progress
      ensures Decoding(d) && progress == Progress(f, 0, [], EncodeFrame(f)) && LiveDict(fields) == Dict(Nowhere, 0, 0)
    {
      progress := Progress(f, 0, [], EncodeFrame(f));
    }

    /** The stages up to the allocation of the buffers. */
    method StepHeader(src: seq<byte>, at: nat, ghost d: seq<byte>) returns (at': nat, another: bool, hint: nat)
      requires Decoding(d) && Agrees(src, at, progress.todo)
      requires fields.stage == GetFrameHeader || fields.stage == StoreFrameHeader || fields.stage == Init
      modifies this, xxh
      ensures Decoding(d) && Agrees(src, at', progress.todo) && at <= at' && at' - at <= |old(progress.todo)|
      ensures progress == old(progress).(todo := old(progress.todo)[at' - at..]) && fields.dict == old(fields.dict)
      ensures another ==> at < at' || Rank(fields.stage) < Rank(old(fields.stage))
      ensures !another ==> at' == |src| && 0 < hint == HintOf(fields) && progress.todo != []
    {
      hide AtGetFrameHeader, AtStoreFrameHeader, AtInit, AtGetBlockHeader, BuffersOk, Xxh32.State.Valid;
      OldBuffers(fields);
      ghost var s0 := fields;
      if fields.stage == GetFrameHeader {
        fields, at', another, hint, progress := StageGetFrameHeader(fields, src, at, progress);
        BuffersKept(s0, fields);
      } else if fields.stage == StoreFrameHeader {
        fields, at', another, hint, progress := StageStoreFrameHeader(fields, src, at, progress);
        BuffersKept(s0, fields);
      } else {
        at', another, hint := at, true, 1;
        if fields.info.contentChecksum {
          xxh.Reset(0);
        }
        fields := StageInit(fields, progress, d, ContentSum());
        assert progress.todo[0..] == progress.todo;
      }
    }

    /** A block header. */
    method StepBlockHeader(src: seq<byte>, at: nat, dstFull: bool, ghost d: seq<byte>) returns (at': nat, another: bool, hint: nat)
      requires Decoding(d) && Agrees(src, at, progress.todo)
      requires fields.stage == GetBlockHeader || fields.stage == StoreBlockHeader
      modifies this, blockSum
      ensures Decoding(d) && Agrees(src, at', progress.todo) && at <= at' && at' - at <= |old(progress.todo)|
      ensures progress == old(progress).(todo := old(progress.todo)[at' - at..]) && fields.dict == old(fields.dict)
      ensures another ==> at < at'
      ensures !another ==> (at' == |src| || dstFull) && 0 < hint == HintOf(fields) && progress.todo != []
    {
      hide AtGetBlockHeader, AtStoreBlockHeader, AtCopyDirect, AtGetCBlock, AtGetSuffix, BuffersOk, Xxh32.State.Valid;
      ghost var s0, h := fields, ContentSum();
      fields, at', another, hint, progress := StageBlockHeader(fields, src, at, dstFull, progress, d, h);
      BuffersKept(s0, fields);
      if fields.stage == CopyDirect && fields.info.blockChecksum {
        blockSum.Reset(0);
      }
      if fields.stage == CopyDirect && !fields.info.blockChecksum {
        NoBlockSum(fields, progress, d, h, RawSum());
      }
    }

    /** Bytes of an uncompressed block. */
    method StepRaw(src: seq<byte>, at: nat, dst: array<byte>, dstStart: nat, dstPtr: nat, dstEnd: nat)
      returns (at': nat, dstPtr': nat, another: bool, hint: nat)
      requires Decoding(dst[..]) && Agrees(src, at, progress.todo) && fields.stage == CopyDirect
      requires dst != xxh.mem && dst != blockSum.mem && OutputOk(dst[..], dstStart, dstPtr, dstEnd, progress.out, LiveDict(fields))
      modifies this, dst, xxh, xxh.mem, blockSum, blockSum.mem
      ensures Decoding(dst[..]) && Agrees(src, at', progress.todo) && at <= at' && at' - at <= |old(progress.todo)|
      ensures dstPtr <= dstPtr' <= dstEnd && SameOutside(old(dst[..]), dst[..], dstPtr, dstEnd)
      ensures progress == old(progress).(todo := old(progress.todo)[at' - at..],
                                         out := old(progress.out) + dst[..][dstPtr..dstPtr'], i := progress.i)
      ensures OutputOk(dst[..], dstStart, dstPtr', dstEnd, progress.out, LiveDict(fields))
      ensures another ==> at < at' || Rank(fields.stage) < Rank(old(fields.stage))
      ensures !another ==> (at' == |src| || dstPtr' == dstEnd) && 0 < hint == HintOf(fields) && progress.todo != []
    {
      hide AtCopyDirect, AtGetBlockChecksum, AtGetBlockHeader, BuffersOk, Xxh32.State.Valid, OutputOk, SameOutside;
      ghost var s0, h, bh, d := fields, ContentSum(), RawSum(), dst[..];
      var n;
      fields, n, another, hint, progress := StageCopyDirect(fields, src, at, dst, dstStart, dstPtr, dstEnd, progress, h, bh);
      BuffersKept(s0, fields);
      SameWider(d, dst[..], dstPtr, dstPtr + n, dstEnd);
      at', dstPtr' := at + n, dstPtr + n;
      FeedRaw(src[at..at']);
    }

    method FeedRaw(x: seq<byte>)
      requires Sums()
      modifies xxh, xxh.mem, blockSum, blockSum.mem
      ensures Sums() && ContentSum() == Fed(old(ContentSum()), ContentSumOn(fields), x) && RawSum() == Fed(old(RawSum()), BlockSumOn(fields), x)
    {
      hide Xxh32.State.Valid;
      if !fields.skipChecksum {
        if fields.info.blockChecksum { blockSum.Update(x); }
        if fields.info.contentChecksum { xxh.Update(x); }
      }
    }

    /** The checksum of an uncompressed block. */
    method StepRawChecksum(src: seq<byte>, at: nat, ghost d: seq<byte>) returns (at': nat, another: bool, hint: nat)
      requires Decoding(d) && Agrees(src, at, progress.todo) && fields.stage == GetBlockChecksum
      modifies this
      ensures Decoding(d) && Agrees(src, at', progress.todo) && at <= at' && at' - at <= |old(progress.todo)|
      ensures progress == old(progress).(todo := old(progress.todo)[at' - at..], i := progress.i) && fields.dict == old(fields.dict)
      ensures another ==> at < at'
      ensures !another ==> at' == |src| && 0 < hint == HintOf(fields) && progress.todo != []
    {
      hide AtGetBlockChecksum, AtGetBlockHeader, BuffersOk, Xxh32.State.Valid, Xxh32.Hash;
      ghost var s0, g0 := fields, progress;
      var readCRC;
      fields, at', another, readCRC, progress := StageBlockChecksum(fields, src, at, progress, d, ContentSum(), RawSum());
      BuffersKept(s0, fields);
      hint := 1;
      if another && !fields.skipChecksum {
        var calcCRC := blockSum.Digest();
        if readCRC != calcCRC { assert false; }
      }
    }

    /** A compressed block: read whole, then decoded into the output if a full block fits
        there, unless the dictionary lies right in front of tmpOut. */
    method StepCBlock(src: seq<byte>, at: nat, dst: array<byte>, dstStart: nat, dstPtr: nat, dstEnd: nat)
      returns (at': nat, dstPtr': nat, another: bool, hint: nat)
      requires Decoding(dst[..]) && Agrees(src, at, progress.todo) && (fields.stage == GetCBlock || fields.stage == StoreCBlock)
      requires dst != xxh.mem && dst != blockSum.mem && OutputOk(dst[..], dstStart, dstPtr, dstEnd, progress.out, LiveDict(fields))
      modifies this, dst, xxh, xxh.mem
      ensures Decoding(dst[..]) && Agrees(src, at', progress.todo) && at <= at' && at' - at <= |old(progress.todo)|
      ensures dstPtr <= dstPtr' <= dstEnd && SameOutside(old(dst[..]), dst[..], dstPtr, dstEnd)
      ensures progress == old(progress).(todo := old(progress.todo)[at' - at..],
                                         out := old(progress.out) + dst[..][dstPtr..dstPtr'], i := progress.i)
      ensures OutputOk(dst[..], dstStart, dstPtr', dstEnd, progress.out, LiveDict(fields))
      ensures another ==> at < at'
      ensures !another ==> at' == |src| && 0 < hint == HintOf(fields) && progress.todo != []
    {
      hide AtStage, OutputOk, SameOutside, BetweenBlocks, BuffersOk, Xxh32.State.Valid, PackedNext, FrameFrom, BlockSum;
      ghost var d := dst[..];
      OutputBounds(d, dstStart, dstPtr, dstEnd, progress.out, fields.dict);
      SameAsBefore(d, dstPtr, dstEnd);
      NothingDelivered(d, dstPtr, progress);
      var selectedIn;
      at', another, selectedIn := ReadCBlock(src, at, d);
      dstPtr', hint := dstPtr, 1;
      if another {
        dstPtr' := DecodeSelected(selectedIn, dst, dstStart, dstPtr, dstEnd);
      } else {
        hint := fields.tmpInTarget - fields.tmpInSize + SumSize(fields.info) + BHSIZE;
      }
    }

    lemma NothingDelivered(d: seq<byte>, dstPtr: nat, progress: Progress)
      requires dstPtr <= |d|
      ensures d[dstPtr..dstPtr] == [] && progress.out + [] == progress.out
      ensures progress == progress.(out := progress.out + d[dstPtr..dstPtr], i := progress.i)
    {
    }

    method ReadCBlock(src: seq<byte>, at: nat, ghost d: seq<byte>) returns (at': nat, complete: bool, selectedIn: seq<byte>)
      requires Decoding(d) && Agrees(src, at, progress.todo) && (fields.stage == GetCBlock || fields.stage == StoreCBlock)
      modifies this
      ensures Sums() && BuffersOk(fields) && Agrees(src, at', progress.todo) && at <= at' && at' - at <= |old(progress.todo)|
      ensures progress == old(progress).(todo := old(progress.todo)[at' - at..]) && fields.dict == old(fields.dict) && !InSuffix(fields.stage)
      ensures !complete ==>
        Decoding(d) && at' == |src| && progress.todo != [] && fields.stage == StoreCBlock && fields.tmpInSize < fields.tmpInTarget
      ensures complete ==>
        && at < at' && BetweenBlocks(fields, progress, d, ContentSum()) && PackedNext(progress) && fields.info == progress.f.info
        && progress.todo == FrameFrom(progress.f, progress.i + 1) && (fields.stage == GetCBlock || fields.stage == StoreCBlock)
        && selectedIn == progress.f.blocks[progress.i].bytes + BlockSum(progress.f.info, progress.f.blocks[progress.i].bytes)
    {
      hide AtGetCBlock, AtStoreCBlock, BetweenBlocks, BuffersOk, Xxh32.State.Valid, Agrees, FrameFrom;
      ghost var s0 := fields;
      fields, at', complete, selectedIn, progress := StageCBlock(fields, src, at, progress, d, ContentSum());
      BuffersKept(s0, fields);
      if complete {
        SameFrame(fields, progress, d, ContentSum());
      }
    }

    lemma SameAsBefore(d: seq<byte>, lo: nat, hi: nat)
      ensures SameOutside(d, d, lo, hi)
    {
    }

    method DecodeSelected(selectedIn: seq<byte>, dst: array<byte>, dstStart: nat, dstPtr: nat, dstEnd: nat) returns (dstPtr': nat)
      requires Sums() && BuffersOk(fields) && BetweenBlocks(fields, progress, dst[..], ContentSum()) && PackedNext(progress)
      requires progress.todo == FrameFrom(progress.f, progress.i + 1) && fields.info == progress.f.info
      requires selectedIn == progress.f.blocks[progress.i].bytes + BlockSum(progress.f.info, progress.f.blocks[progress.i].bytes)
      requires dst != xxh.mem && dst != blockSum.mem && OutputOk(dst[..], dstStart, dstPtr, dstEnd, progress.out, fields.dict)
      requires fields.stage == GetCBlock || fields.stage == StoreCBlock
      modifies this, dst, xxh, xxh.mem
      ensures Decoding(dst[..]) && dstPtr <= dstPtr' <= dstEnd && SameOutside(old(dst[..]), dst[..], dstPtr, dstEnd)
      ensures progress == old(progress).(out := old(progress.out) + dst[..][dstPtr..dstPtr'], i := progress.i)
      ensures OutputOk(dst[..], dstStart, dstPtr', dstEnd, progress.out, LiveDict(fields))
    {
      hide AtStage, BetweenBlocks, BuffersOk, Xxh32.State.Valid, OutputOk, SameOutside, PackedNext, FrameFrom, BlockSum;
      BlockExists(progress);
      OutputBounds(dst[..], dstStart, dstPtr, dstEnd, progress.out, fields.dict);
      var bytes := VerifyBlock(fields.info, selectedIn, progress.f.blocks[progress.i].bytes);
      if dstEnd - dstPtr >= fields.maxBlockSize && !(fields.dict.buf == InTmp && fields.dict.size == fields.t.at) {
        dstPtr' := BlockToOutput(bytes, dst, dstStart, dstPtr, dstEnd);
      } else {
        SameAsBefore(dst[..], dstPtr, dstEnd);
        NothingDelivered(dst[..], dstPtr, progress);
        BlockToTmp(bytes, dst, dstStart, dstPtr, dstEnd);
        assert dst[..][dstPtr..dstPtr] == [];
        dstPtr' := dstPtr;
      }
    }

    lemma BlockExists(progress: Progress)
      requires PackedNext(progress)
      ensures progress.i < |progress.f.blocks|
    {
    }

    method BlockToOutput(bytes: seq<byte>, dst: array<byte>, dstStart: nat, dstPtr: nat, dstEnd: nat) returns (dstPtr': nat)
      requires Sums() && BuffersOk(fields) && BetweenBlocks(fields, progress, dst[..], ContentSum()) && PackedNext(progress)
      requires progress.todo == FrameFrom(progress.f, progress.i + 1) && bytes == progress.f.blocks[progress.i].bytes
      requires dst != xxh.mem && dst != blockSum.mem && OutputOk(dst[..], dstStart, dstPtr, dstEnd, progress.out, fields.dict)
      requires dstPtr + fields.maxBlockSize <= dstEnd
      modifies this, dst, xxh, xxh.mem
      ensures Decoding(dst[..]) && dstPtr <= dstPtr' <= dstEnd && SameOutside(old(dst[..]), dst[..], dstPtr, dstEnd)
      ensures progress == old(progress).(out := old(progress.out) + dst[..][dstPtr..dstPtr'], i := progress.i)
      ensures OutputOk(dst[..], dstStart, dstPtr', dstEnd, progress.out, LiveDict(fields))
    {
      hide AtGetBlockHeader, BetweenBlocks, BuffersOk, Xxh32.State.Valid, OutputOk, SameOutside, FrameFrom;
      ghost var s0 := fields;
      OutputBounds(dst[..], dstStart, dstPtr, dstEnd, progress.out, fields.dict);
      var on := ContentSumOn(fields);
      var n: nat := 0;
      fields, n, progress := DecodeDirect(fields, bytes, dst, dstStart, dstPtr, dstEnd, progress, ContentSum());
      BuffersKept(s0, fields);
      dstPtr' := dstPtr + n;
      assert dst[..][dstPtr..dstPtr'] == dst[dstPtr..dstPtr'];
      FeedContent(dst[dstPtr..dstPtr'], on);
    }

    method BlockToTmp(bytes: seq<byte>, dst: array<byte>, ghost dstStart: nat, ghost dstPtr: nat, ghost dstEnd: nat)
      requires Sums() && BuffersOk(fields) && BetweenBlocks(fields, progress, dst[..], ContentSum()) && PackedNext(progress)
      requires progress.todo == FrameFrom(progress.f, progress.i + 1) && bytes == progress.f.blocks[progress.i].bytes
      requires dst != xxh.mem && dst != blockSum.mem && OutputOk(dst[..], dstStart, dstPtr, dstEnd, progress.out, fields.dict)
      modifies this, xxh, xxh.mem
      ensures Decoding(dst[..]) && progress == old(progress).(i := progress.i)
      ensures OutputOk(dst[..], dstStart, dstPtr, dstEnd, progress.out, LiveDict(fields))
    {
      hide AtFlushOut, BetweenBlocks, BuffersOk, Xxh32.State.Valid, OutputOk, FrameFrom;
      ghost var s0 := fields;
      var on, content := ContentSumOn(fields), [];
      fields, content, progress := DecodeToTmp(fields, bytes, dst, progress, ContentSum());
      BuffersKept(s0, fields);
      DictMoves(dst[..], dstStart, dstPtr, dstEnd, progress.out, s0.dict, fields.dict);
      FeedContent(content, on);
    }

    method FeedContent(x: seq<byte>, on: bool)
      requires Sums()
      modifies xxh, xxh.mem
      ensures Sums() && ContentSum() == Fed(old(ContentSum()), on, x)
    {
      hide Xxh32.State.Valid;
      if on { xxh.Update(x); }
    }

    /** Flushes a decoded block. */
    method StepFlush(dst: array<byte>, dstStart: nat, dstPtr: nat, dstEnd: nat) returns (dstPtr': nat, another: bool, hint: nat)
      requires Decoding(dst[..]) && fields.stage == FlushOut
      requires dst != xxh.mem && dst != blockSum.mem && OutputOk(dst[..], dstStart, dstPtr, dstEnd, progress.out, LiveDict(fields))
      modifies this, dst
      ensures Decoding(dst[..]) && dstPtr <= dstPtr' <= dstEnd && SameOutside(old(dst[..]), dst[..], dstPtr, dstEnd)
      ensures progress == old(progress).(out := old(progress.out) + dst[..][dstPtr..dstPtr'])
      ensures OutputOk(dst[..], dstStart, dstPtr', dstEnd, progress.out, LiveDict(fields))
      ensures another ==> fields.stage == GetBlockHeader
      ensures !another ==> dstPtr' == dstEnd && 0 < hint == HintOf(fields) && progress.todo != []
    {
      hide AtFlushOut, AtGetBlockHeader, BuffersOk, Xxh32.State.Valid, OutputOk, SameOutside;
      ghost var s0, d := fields, dst[..];
      OutputBounds(d, dstStart, dstPtr, dstEnd, progress.out, fields.dict);
      var n;
      fields, n, another, progress := StageFlushOut(fields, dst, dstStart, dstPtr, dstEnd, progress, ContentSum());
      BuffersKept(s0, fields);
      SameWider(d, dst[..], dstPtr, dstPtr + n, dstEnd);
      dstPtr', hint := dstPtr + n, BHSIZE;
    }

    lemma SuffixHint(s: Fields)
      requires s.stage == StoreSuffix
      ensures HintOf(s) == 4 - s.tmpInSize
    {
    }

    /** The end of the frame; afterwards the context is as new. */
    method StepSuffix(src: seq<byte>, at: nat, ghost d: seq<byte>) returns (at': nat, complete: bool, hint: nat)
      requires Decoding(d) && Agrees(src, at, progress.todo) && InSuffix(fields.stage)
      modifies this
      ensures at <= at' && at' - at <= |old(progress.todo)| && progress == old(progress).(todo := old(progress.todo)[at' - at..])
      ensures Agrees(src, at', progress.todo)
      ensures complete ==> Idle() && hint == 0 && progress.todo == [] && progress.out == FrameContent(progress.f)
      ensures !complete ==> Decoding(d) && InSuffix(fields.stage) && at' == |src| && 0 < hint == HintOf(fields) && progress.todo != []
    {
      hide AtStage, BuffersOk, Sums, Hashed, IdleFields, Xxh32.Hash, FrameContent, Agrees, HintOf;
      var s', readCRC;
      ghost var g';
      s', at', complete, readCRC, g' := SuffixRead(fields, src, at, progress, d, ContentSum(), RawSum());
      BuffersKept(fields, s');
      hint := if complete then 0 else 4 - s'.tmpInSize;
      if !complete { SuffixHint(s'); }
      fields, progress := s', g';
      if complete {
        Finish(readCRC);
      }
    }

    /** Checks the content checksum and resets the context. */
    method Finish(readCRC: nat)
      requires Sums() && BuffersOk(fields) && fields.frameRemainingSize == 0 && Hashed(fields, ContentSum(), progress.out)
      requires fields.info.contentChecksum ==> readCRC == Xxh32.Hash(progress.out, 0)
      modifies this`fields
      ensures Idle()
    {
      hide BuffersOk, Xxh32.State.Valid, Xxh32.Hash;
      if fields.info.contentChecksum && !fields.skipChecksum {
        var resultCRC := xxh.Digest();
        if readCRC != resultCRC { assert false; }
      }
      ghost var s1 := fields;
      fields := fields.(stage := GetFrameHeader, dict := Dict(Nowhere, 0, 0), skipChecksum := false);
      BuffersKept(s1, fields);
    }

    /** One round of the state machine. */
    method Step(src: seq<byte>, at: nat, dst: array<byte>, dstStart: nat, dstPtr: nat, dstEnd: nat)
      returns (at': nat, dstPtr': nat, another: bool, hint: nat)
      requires Decoding(dst[..]) && Agrees(src, at, progress.todo)
      requires dst != xxh.mem && dst != blockSum.mem && OutputOk(dst[..], dstStart, dstPtr, dstEnd, progress.out, LiveDict(fields))
      modifies this, dst, xxh, xxh.mem, blockSum, blockSum.mem
      ensures Agrees(src, at', progress.todo) && at <= at' && at' - at <= |old(progress.todo)|
      ensures dstPtr <= dstPtr' <= dstEnd && SameOutside(old(dst[..]), dst[..], dstPtr, dstEnd)
      ensures progress == old(progress).(todo := old(progress.todo)[at' - at..],
                                         out := old(progress.out) + dst[..][dstPtr..dstPtr'], i := progress.i)
      ensures another ==> at < at' || Rank(fields.stage) < Rank(old(fields.stage))
      ensures another || hint != 0 ==> Decoding(dst[..]) && OutputOk(dst[..], dstStart, dstPtr', dstEnd, progress.out, LiveDict(fields))
      ensures !another && hint != 0 ==> (at' == |src| || dstPtr' == dstEnd) && progress.todo != [] && hint == HintOf(fields)
      ensures !another && hint == 0 ==> Idle() && progress.todo == [] && progress.out == FrameContent(progress.f)
    {
      hide AtStage, BuffersOk, Sums, OutputOk, SameOutside, Agrees, FrameContent;
      if InSuffix(fields.stage) {
        NoOutputHere(dst[..], dstStart, dstPtr, dstEnd, progress);
        dstPtr' := dstPtr;
        at', another, hint := StepSuffix(src, at, dst[..]);
        another := false;
      } else if fields.stage == CopyDirect {
        at', dstPtr', another, hint := StepRaw(src, at, dst, dstStart, dstPtr, dstEnd);
      } else if fields.stage == GetCBlock || fields.stage == StoreCBlock {
        at', dstPtr', another, hint := StepCBlock(src, at, dst, dstStart, dstPtr, dstEnd);
      } else if fields.stage == FlushOut {
        assert progress.todo[0..] == progress.todo;
        at' := at;
        dstPtr', another, hint := StepFlush(dst, dstStart, dstPtr, dstEnd);
      } else {
        NoOutputHere(dst[..], dstStart, dstPtr, dstEnd, progress);
        dstPtr' := dstPtr;
        at', another, hint := StepInput(src, at, dst, dstStart, dstPtr, dstEnd);
      }
    }

    lemma NoOutputHere(d: seq<byte>, dstStart: nat, dstPtr: nat, dstEnd: nat, progress: Progress)
      requires OutputOk(d, dstStart, dstPtr, dstEnd, progress.out, LiveDict(fields))
      ensures SameOutside(d, d, dstPtr, dstEnd) && dstPtr <= dstEnd <= |d|
      ensures forall todo, i {:trigger progress.(todo := todo, i := i)} ::
        progress.(todo := todo, i := i) == progress.(todo := todo, out := progress.out + d[dstPtr..dstPtr], i := i)
    {
      assert progress.out + d[dstPtr..dstPtr] == progress.out;
    }

    /** The stages that only read. */
    method StepInput(src: seq<byte>, at: nat, dst: array<byte>, ghost dstStart: nat, dstPtr: nat, dstEnd: nat)
      returns (at': nat, another: bool, hint: nat)
      requires Decoding(dst[..]) && Agrees(src, at, progress.todo)
      requires fields.stage != CopyDirect && fields.stage != GetCBlock && fields.stage != StoreCBlock
      requires fields.stage != FlushOut && !InSuffix(fields.stage)
      requires OutputOk(dst[..], dstStart, dstPtr, dstEnd, progress.out, LiveDict(fields))
      modifies this, xxh, blockSum
      ensures Decoding(dst[..]) && Agrees(src, at', progress.todo) && at <= at' && at' - at <= |old(progress.todo)|
      ensures progress == old(progress).(todo := old(progress.todo)[at' - at..], i := progress.i)
      ensures OutputOk(dst[..], dstStart, dstPtr, dstEnd, progress.out, LiveDict(fields))
      ensures another ==> at < at' || Rank(fields.stage) < Rank(old(fields.stage))
      ensures !another ==> (at' == |src| || dstPtr == dstEnd) && 0 < hint == HintOf(fields) && progress.todo != []
    {
      hide AtStage, BuffersOk, Sums, OutputOk, Agrees, FrameContent;
      ghost var dict := fields.dict;
      if fields.stage == GetBlockHeader || fields.stage == StoreBlockHeader {
        at', another, hint := StepBlockHeader(src, at, dstPtr == dstEnd, dst[..]);
      } else if fields.stage == GetBlockChecksum {
        at', another, hint := StepRawChecksum(src, at, dst[..]);
      } else {
        at', another, hint := StepHeader(src, at, dst[..]);
      }
      DictRests(dst[..], dstStart, dstPtr, dstEnd, progress.out, dict, LiveDict(fields));
    }

    /** Keeps the last 64 KB of history within `tmpOutBuffer`. */
    method PreserveHistory(dst: array<byte>)
      requires Decoding(dst[..])
      modifies this`fields
      ensures Decoding(dst[..]) && LiveDict(fields).buf != InDst && HintOf(fields) == HintOf(old(fields))
    {
      hide AtStage, BuffersOk, Sums, HistoryOk, FlushOk;
      ghost var s0 := fields;
      DictInDst(fields, progress, dst[..], ContentSum(), RawSum());
      if fields.info.linked && fields.dict.buf == InDst && !InSuffix(fields.stage)
        && fields.stage != GetFrameHeader && fields.stage != StoreFrameHeader
      {
        fields := MoveHistory(fields, dst, progress, ContentSum(), RawSum());
        BuffersKept(s0, fields);
      }
    }

    lemma HintInFrame(d: seq<byte>)
      requires Decoding(d) && progress.todo != []
      ensures HintOf(fields) <= |progress.todo| <==> !AsksForMore(fields, progress)
    {
      hide AtStage, Sums, BuffersOk, HintOf, AsksForMore;
      HintFits(fields, progress, d, ContentSum(), RawSum());
    }

    /** LZ4F_decompress.  `hint` is 0 exactly when the frame is complete; else the call ended
        because it has read all its input or filled its output, and the hint does not go
        beyond the end of the frame, but for `AsksForMore`.  What is read is a part of the
        frame, what is written the next part of its content. */
    method Decompress(src: seq<byte>, dst: array<byte>, dstStart: nat, dstEnd: nat, stableDst: bool, skipChecksums: bool)
      returns (hint: nat, consumed: nat, produced: nat)
      requires Decoding(dst[..]) && progress.todo != [] && Agrees(src, 0, progress.todo)
      requires dstStart <= dstEnd <= dst.Length && dst != xxh.mem && dst != blockSum.mem
      requires LiveDict(fields).buf == InDst ==> fields.dict.at + fields.dict.size <= dstStart || dstEnd <= fields.dict.at
      modifies this, dst, xxh, xxh.mem, blockSum, blockSum.mem
      ensures consumed <= |src| && consumed <= |old(progress.todo)| && produced <= dstEnd - dstStart
      ensures progress.f == old(progress.f) && progress.todo == old(progress.todo)[consumed..]
      ensures progress.out == old(progress.out) + dst[..][dstStart..dstStart + produced]
      ensures SameOutside(old(dst[..]), dst[..], dstStart, dstEnd)
      ensures hint == 0 ==> Idle() && progress.todo == [] && progress.out == FrameContent(progress.f)
      ensures hint != 0 ==> Decoding(dst[..]) && progress.todo != [] && (consumed == |src| || produced == dstEnd - dstStart)
      ensures hint != 0 ==> hint == HintOf(fields) && (hint <= |progress.todo| <==> !AsksForMore(fields, progress))
      ensures hint != 0 && !stableDst ==> LiveDict(fields).buf != InDst
      ensures hint != 0 && LiveDict(fields).buf == InDst ==> fields.dict.at + fields.dict.size <= dstStart + produced || dstEnd <= fields.dict.at
    {
      hide AtStage, BuffersOk, Sums, FrameContent, Agrees, SameOutside, HintOf, AsksForMore;
      ghost var g0, d0 := progress, dst[..];
      Starting(dst[..], dstStart, dstEnd, progress);
      SkipChecksum(fields, progress, dst[..], ContentSum(), RawSum(), skipChecksums);
      ghost var s0 := fields;
      fields := fields.(skipChecksum := fields.skipChecksum || skipChecksums);
      BuffersKept(s0, fields);
      var at, dstPtr, another := 0, dstStart, true;
      hint := 1;
      while another
        invariant at <= |src| && dstStart <= dstPtr <= dstEnd && Agrees(src, at, progress.todo)
        invariant at <= |g0.todo| && progress.f == g0.f && progress.todo == g0.todo[at..]
        invariant progress.out == g0.out + dst[..][dstStart..dstPtr] && SameOutside(d0, dst[..], dstStart, dstEnd)
        invariant another || hint != 0 ==>
          Decoding(dst[..]) && OutputOk(dst[..], dstStart, dstPtr, dstEnd, progress.out, LiveDict(fields))
        invariant !another && hint != 0 ==> (at == |src| || dstPtr == dstEnd) && progress.todo != [] && hint == HintOf(fields)
        invariant !another && hint == 0 ==> Idle() && progress.todo == [] && progress.out == FrameContent(progress.f)
        decreases another, |src| - at, Rank(fields.stage)
      {
        ghost var g1, d1, at1, dst1 := progress, dst[..], at, dstPtr;
        at, dstPtr, another, hint := Step(src, at, dst, dstStart, dstPtr, dstEnd);
        Onward(d0, d1, dst[..], g0, g1, progress, dstStart, dst1, dstPtr, dstEnd, at1, at);
        AgreesBound(src, at, progress.todo);
      }
      if hint != 0 {
        DictClear(dst[..], dstStart, dstPtr, dstEnd, progress.out, LiveDict(fields));
        if !stableDst {
          PreserveHistory(dst);
        }
        HintInFrame(dst[..]);
      }
      consumed, produced := at, dstPtr - dstStart;
    }
  }
}
