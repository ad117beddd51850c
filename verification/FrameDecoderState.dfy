/** The fields of a frame decompression context and what holds in each stage.

    `Progress` ties a context to the frame being decoded: the blocks handled so far, the
    bytes delivered so far and the bytes of the frame not yet read.
 */
module FrameDecoderState {
  import opened Basics
  import opened BlockFormat
  import opened FrameBuffers
  import opened FrameFormat
  import opened FrameHistory
  import opened FrameDict

  datatype Stage =
    | GetFrameHeader | StoreFrameHeader | Init
    | GetBlockHeader | StoreBlockHeader
    | CopyDirect | GetBlockChecksum
    | GetCBlock | StoreCBlock | FlushOut
    | GetSuffix | StoreSuffix

  /** LZ4F_dctx_s, except for its two hash states. */
  datatype Fields = Fields(
    stage: Stage, info: Info, frameRemainingSize: int, maxBlockSize: nat, maxBufferSize: nat,
    tmpIn: seq<byte>, tmpInSize: nat, tmpInTarget: nat,
    tmpOutBuffer: seq<byte>, dict: Dict, t: TmpOut, skipChecksum: bool, header: seq<byte>)

  datatype Progress = Progress(f: Frame, i: nat, out: seq<byte>, todo: seq<byte>)

  /** What a hash state has hashed since its reset. */
  datatype Sum = Sum(seed: nat, data: seq<byte>)

  // ----- Input -----

  /** From `at` on, the input goes on like the rest of the frame, as far as both go. */
  predicate Agrees(src: seq<byte>, at: nat, todo: seq<byte>) {
    at <= |src| && forall k :: 0 <= k < |todo| && at + k < |src| ==> src[at + k] == todo[k]
  }

  lemma Take(src: seq<byte>, at: nat, todo: seq<byte>, n: nat)
    requires Agrees(src, at, todo) && at + n <= |src| && n <= |todo|
    ensures src[at..at + n] == todo[..n] && Agrees(src, at + n, todo[n..])
  {
    forall k | 0 <= k < |todo[n..]| && at + n + k < |src| ensures src[at + n + k] == todo[n..][k] {
      assert src[at + (n + k)] == todo[n + k];
    }
  }

  lemma AgreesFrom(src: seq<byte>, at: nat, todo: seq<byte>)
    requires Agrees(src, at, todo)
    ensures Agrees(src[at..], 0, todo)
  {
  }

  /** Moves input behind the `have` bytes stored already, until `want` are there. */
  method Store(buf: seq<byte>, have: nat, want: nat, src: seq<byte>, at: nat, ghost todo: seq<byte>, ghost all: seq<byte>)
    returns (buf': seq<byte>, have': nat, at': nat, ghost todo': seq<byte>)
    requires have <= want <= |buf| && want <= |all| && Agrees(src, at, todo) && buf[..have] + todo == all
    ensures |buf'| == |buf| && have <= have' <= want && at' == at + (have' - have) <= |src|
    ensures have' - have <= |todo| && todo' == todo[have' - have..] && Agrees(src, at', todo')
    ensures buf'[..have'] + todo' == all
    ensures have' < want ==> at' == |src|
    ensures have' == want ==> buf'[..want] == all[..want] && todo' == all[want..]
  {
    assert |all| == have + |todo|;
    var n := Min(want - have, |src| - at);
    Take(src, at, todo, n);
    buf' := Replace(buf, have, src[at..at + n]);
    have', at', todo' := have + n, at + n, todo[n..];
    assert buf[..have] + todo == (buf[..have] + todo[..n]) + todo';
  }

  /** The next `want` bytes straight from the input. */
  method Select(want: nat, src: seq<byte>, at: nat, ghost todo: seq<byte>) returns (selected: seq<byte>, ghost todo': seq<byte>)
    requires Agrees(src, at, todo) && at + want <= |src| && want <= |todo|
    ensures selected == todo[..want] && todo' == todo[want..] && Agrees(src, at + want, todo')
  {
    hide Agrees;
    Take(src, at, todo, want);
    selected, todo' := src[at..at + want], todo[want..];
  }

  /** The next `want` bytes: straight from the input, or collected in a buffer that holds
      `have` of them. */
  method Collect(buf: seq<byte>, have: nat, want: nat, src: seq<byte>, at: nat, direct: bool, ghost todo: seq<byte>, ghost all: seq<byte>)
    returns (buf': seq<byte>, have': nat, at': nat, complete: bool, selected: seq<byte>, ghost todo': seq<byte>)
    requires have < want <= |buf| && want <= |all| && Agrees(src, at, todo) && buf[..have] + todo == all
    requires direct ==> have == 0 && at + want <= |src|
    ensures |buf'| == |buf| && at <= at' <= |src| && at' - at <= |todo|
    ensures todo' == todo[at' - at..] && Agrees(src, at', todo')
    ensures !complete ==> have' < want && at' == |src| && buf'[..have'] + todo' == all && todo' != []
    ensures complete ==> at < at' && selected == all[..want] && todo' == all[want..]
    ensures direct ==> complete && buf' == buf && at' == at + want
  {
    hide Agrees;
    if direct {
      NothingInFront(buf, todo);
      buf', have', at', complete := buf, have, at + want, true;
      selected, todo' := Select(want, src, at, todo);
    } else {
      buf', have', at', todo' := Store(buf, have, want, src, at, todo, all);
      complete, selected := have' == want, buf'[..have'];
      LengthOfSum(buf'[..have'], todo');
    }
  }

  lemma NothingInFront(buf: seq<byte>, todo: seq<byte>)
    ensures buf[..0] + todo == todo
  {
  }

  lemma LengthOfSum(a: seq<byte>, b: seq<byte>)
    ensures |a + b| == |a| + |b|
  {
  }

  // ----- Invariants -----

  /** The buffers were allocated for one of the four block sizes, with or without room for
      linked blocks. */
  predicate BuffersOk(s: Fields) {
    && |s.header| == HEADER_SIZE_MAX && |s.tmpOutBuffer| == s.maxBufferSize
    && (s.maxBufferSize == 0 ||
        (exists id :: 4 <= id <= 7 && |s.tmpIn| == BlockSizeOf(id) + BFSIZE
           && (s.maxBufferSize == BlockSizeOf(id) || s.maxBufferSize == BlockSizeOf(id) + KB128)))
  }

  /** The header is decoded and the buffers are allocated. */
  ghost predicate Ready(s: Fields, f: Frame) {
    && FrameOk(f) && s.info == f.info && s.maxBlockSize == BlockSizeOf(s.info.blockSizeID)
    && |s.header| == HEADER_SIZE_MAX && s.maxBlockSize + BFSIZE <= |s.tmpIn|
    && s.maxBlockSize + (if s.info.linked then KB128 else 0) <= |s.tmpOutBuffer|
    && (!s.info.linked ==> s.t.at == 0)
  }

  /** The content checksum so far. */
  predicate Hashed(s: Fields, h: Sum, done: seq<byte>) {
    s.info.contentChecksum && !s.skipChecksum ==> h == Sum(0, done)
  }

  /** The checksum of an uncompressed block so far. */
  predicate BlockHashed(s: Fields, bh: Sum, done: seq<byte>) {
    s.info.blockChecksum && !s.skipChecksum ==> bh == Sum(0, done)
  }

  predicate Counted(s: Fields, done: seq<byte>) {
    s.frameRemainingSize == if s.info.contentSize.Some? then s.info.contentSize.value - |done| else 0
  }

  predicate Hist(s: Fields, d: seq<byte>, out: seq<byte>) {
    if s.info.linked then HistoryOk(s.dict, s.tmpOutBuffer, d, out) else s.dict == Dict(Nowhere, 0, 0)
  }

  predicate FlushHist(s: Fields, d: seq<byte>, out: seq<byte>) {
    if s.info.linked then FlushOk(s.dict, s.tmpOutBuffer, d, s.t, s.t.start, out) else s.dict == Dict(Nowhere, 0, 0)
  }

  /** Before the header is complete. */
  ghost predicate Fresh(s: Fields, g: Progress) {
    FrameOk(g.f) && g.i == 0 && g.out == [] && s.frameRemainingSize == 0 && s.dict == Dict(Nowhere, 0, 0)
  }

  /** Between blocks, or with a compressed block being read. */
  ghost predicate BetweenBlocks(s: Fields, g: Progress, d: seq<byte>, h: Sum) {
    && Ready(s, g.f) && g.i <= |g.f.blocks| && g.out == Before(g.f, g.i)
    && Hist(s, d, g.out) && Hashed(s, h, g.out) && Counted(s, g.out)
  }

  function BlockSum(info: Info, bytes: seq<byte>): seq<byte> {
    if info.blockChecksum then Checksum(bytes) else []
  }

  function SumSize(info: Info): nat {
    if info.blockChecksum then BFSIZE else 0
  }

  /** Block `i` is a compressed one. */
  ghost predicate PackedNext(g: Progress) {
    g.i < |g.f.blocks| && g.f.blocks[g.i].Packed? && g.f.blocks[g.i].bytes != []
  }

  /** The bytes of compressed block `i` and all behind it. */
  function CBlockFrom(f: Frame, i: nat): seq<byte>
    requires i < |f.blocks|
  {
    f.blocks[i].bytes + (BlockSum(f.info, f.blocks[i].bytes) + FrameFrom(f, i + 1))
  }

  /** Block `i` is an uncompressed one of which `left` bytes have to come. */
  ghost predicate RawNext(s: Fields, g: Progress, d: seq<byte>, h: Sum, bh: Sum, left: nat) {
    && Ready(s, g.f) && g.i < |g.f.blocks| && g.f.blocks[g.i].Raw? && left <= |g.f.blocks[g.i].bytes|
    && var bytes := g.f.blocks[g.i].bytes;
       && g.out == Before(g.f, g.i) + bytes[..|bytes| - left]
       && Hist(s, d, g.out) && Hashed(s, h, g.out) && Counted(s, g.out)
       && BlockHashed(s, bh, bytes[..|bytes| - left])
  }

  // ----- One predicate per stage -----

  ghost predicate AtGetFrameHeader(s: Fields, g: Progress) {
    Fresh(s, g) && g.todo == EncodeFrame(g.f)
  }

  ghost predicate AtStoreFrameHeader(s: Fields, g: Progress) {
    && Fresh(s, g) && |s.header| == HEADER_SIZE_MAX && s.tmpInSize < s.tmpInTarget
    && (s.tmpInTarget == HEADER_SIZE_MIN || s.tmpInTarget == HeaderSize(g.f.info))
    && s.header[..s.tmpInSize] + g.todo == EncodeFrame(g.f)
  }

  ghost predicate AtInit(s: Fields, g: Progress) {
    && FrameOk(g.f) && s.info == g.f.info && s.maxBlockSize == BlockSizeOf(s.info.blockSizeID)
    && g.i == 0 && g.out == [] && s.dict == Dict(Nowhere, 0, 0) && Counted(s, []) && g.todo == FrameFrom(g.f, 0)
  }

  ghost predicate AtGetBlockHeader(s: Fields, g: Progress, d: seq<byte>, h: Sum) {
    BetweenBlocks(s, g, d, h) && g.todo == FrameFrom(g.f, g.i)
  }

  ghost predicate AtStoreBlockHeader(s: Fields, g: Progress, d: seq<byte>, h: Sum) {
    && BetweenBlocks(s, g, d, h) && s.tmpInSize < BHSIZE
    && s.tmpIn[..s.tmpInSize] + g.todo == FrameFrom(g.f, g.i)
  }

  ghost predicate AtCopyDirect(s: Fields, g: Progress, d: seq<byte>, h: Sum, bh: Sum) {
    && RawNext(s, g, d, h, bh, s.tmpInTarget)
    && var bytes := g.f.blocks[g.i].bytes;
       g.todo == bytes[|bytes| - s.tmpInTarget..] + (BlockSum(g.f.info, bytes) + FrameFrom(g.f, g.i + 1))
  }

  ghost predicate AtGetBlockChecksum(s: Fields, g: Progress, d: seq<byte>, h: Sum, bh: Sum) {
    && RawNext(s, g, d, h, bh, 0) && s.info.blockChecksum && s.tmpInSize < 4
    && s.header[..s.tmpInSize] + g.todo == Checksum(g.f.blocks[g.i].bytes) + FrameFrom(g.f, g.i + 1)
  }

  ghost predicate AtGetCBlock(s: Fields, g: Progress, d: seq<byte>, h: Sum) {
    && BetweenBlocks(s, g, d, h) && PackedNext(g) && g.todo == CBlockFrom(g.f, g.i)
    && s.tmpInTarget == |g.f.blocks[g.i].bytes| + SumSize(g.f.info) <= |s.tmpIn|
  }

  ghost predicate AtStoreCBlock(s: Fields, g: Progress, d: seq<byte>, h: Sum) {
    && BetweenBlocks(s, g, d, h) && PackedNext(g)
    && s.tmpInSize < s.tmpInTarget == |g.f.blocks[g.i].bytes| + SumSize(g.f.info) <= |s.tmpIn|
    && s.tmpIn[..s.tmpInSize] + g.todo == CBlockFrom(g.f, g.i)
  }

  /** The decoded block that waits in `tmpOutBuffer`. */
  function Pending(s: Fields): seq<byte>
    requires s.t.start <= s.t.size && s.t.at + s.t.size <= |s.tmpOutBuffer|
  {
    s.tmpOutBuffer[s.t.at + s.t.start..s.t.at + s.t.size]
  }

  ghost predicate AtFlushOut(s: Fields, g: Progress, d: seq<byte>, h: Sum) {
    && Ready(s, g.f) && g.i <= |g.f.blocks| && g.todo == FrameFrom(g.f, g.i)
    && s.t.start <= s.t.size && s.t.at + s.t.size <= |s.tmpOutBuffer|
    && g.out + Pending(s) == Before(g.f, g.i)
    && FlushHist(s, d, g.out) && Hashed(s, h, Before(g.f, g.i)) && Counted(s, Before(g.f, g.i))
  }

  ghost predicate AtGetSuffix(s: Fields, g: Progress, h: Sum) {
    && Ready(s, g.f) && g.out == FrameContent(g.f) && Hashed(s, h, g.out) && Counted(s, g.out)
    && g.todo == if g.f.info.contentChecksum then Checksum(g.out) else []
  }

  ghost predicate AtStoreSuffix(s: Fields, g: Progress, h: Sum) {
    && Ready(s, g.f) && g.out == FrameContent(g.f) && Hashed(s, h, g.out) && s.frameRemainingSize == 0
    && g.f.info.contentChecksum && s.tmpInSize < 4
    && s.tmpIn[..s.tmpInSize] + g.todo == Checksum(g.out)
  }

  /** What a call asks for when it ends at a stage: the rest of what it was reading and,
      behind a block, the header of the next one. */
  function HintOf(s: Fields): int {
    match s.stage
    case GetFrameHeader => HEADER_SIZE_MIN
    case StoreFrameHeader => s.tmpInTarget - s.tmpInSize + BHSIZE
    case StoreBlockHeader => BHSIZE - s.tmpInSize
    case CopyDirect => s.tmpInTarget + SumSize(s.info) + BHSIZE
    case GetCBlock => s.tmpInTarget + BHSIZE
    case StoreCBlock => s.tmpInTarget - s.tmpInSize + SumSize(s.info) + BHSIZE
    case FlushOut => BHSIZE
    case StoreSuffix => 4 - s.tmpInSize
    case _ => 1
  }

  ghost predicate AtStage(s: Fields, g: Progress, d: seq<byte>, h: Sum, bh: Sum) {
    match s.stage
    case GetFrameHeader => AtGetFrameHeader(s, g)
    case StoreFrameHeader => AtStoreFrameHeader(s, g)
    case Init => AtInit(s, g)
    case GetBlockHeader => AtGetBlockHeader(s, g, d, h)
    case StoreBlockHeader => AtStoreBlockHeader(s, g, d, h)
    case CopyDirect => AtCopyDirect(s, g, d, h, bh)
    case GetBlockChecksum => AtGetBlockChecksum(s, g, d, h, bh)
    case GetCBlock => AtGetCBlock(s, g, d, h)
    case StoreCBlock => AtStoreCBlock(s, g, d, h)
    case FlushOut => AtFlushOut(s, g, d, h)
    case GetSuffix => AtGetSuffix(s, g, h)
    case StoreSuffix => AtStoreSuffix(s, g, h)
  }
}
