/** Whole frames: LZ4F_compressFrame, any session of updates and flushes, and the round
    trip through the frame decoder.
 */
module FrameRoundTrip {
  import opened Basics
  import opened BlockFormat
  import opened FrameBuffers
  import opened FrameFormat
  import opened FrameHistory
  import opened FrameBounds
  import opened FrameBlockWriter
  import Buf = FrameBuffering
  import opened FrameCompressor
  import FrameDecoder
  import FrameChunks
  import FastStream

  // ----- LZ4F_compressFrame -----

  /** LZ4F_compressFrame: with the capacity LZ4F_compressFrameBound asks for, the source
      becomes one frame; the capacity is too small only below that. */
  method CompressFrame(cctx: Cctx, srcAt: nat, srcSize: nat, dst: array<byte>, dstCapacity: nat, p: Prefs) returns (r: Result)
    requires cctx.Ready() && PrefsOk(p) && srcSize < TWO64 && Countable(srcSize, GetBlockSize(p.blockSizeID), true)
    requires BUFFER_END < srcAt && srcAt + srcSize <= cctx.mem.Length
    requires dstCapacity <= dst.Length && dst != cctx.mem && dst != cctx.xxh.mem
    modifies cctx, cctx.stream, cctx.stream.hashTable, cctx.xxh, cctx.xxh.mem, cctx.mem, dst
    ensures r.TooSmall? <==> dstCapacity < FrameBound(srcSize, p)
    ensures r.TooSmall? || r.Done?
    ensures r.Done? ==>
      && r.op <= dstCapacity && IsFrame(cctx.written, Frame(cctx.written.info, cctx.written.blocks)) && cctx.Ready()
      && dst[..r.op] == EncodeFrame(Frame(cctx.written.info, cctx.written.blocks))
      && FrameContent(Frame(cctx.written.info, cctx.written.blocks)) == old(cctx.mem[srcAt..srcAt + srcSize])
      && AllMade(cctx.hash, cctx.stream.hashTable.Length, p.level, cctx.written.info, cctx.written.blocks)
  {
    hide *;
    IdsOfPrefs(p);
    var id := OptimalBSID(p.blockSizeID, srcSize);
    IdIsValid(id, p.blockSizeID, srcSize);
    var prefs := Adjusted(p, srcSize, id);
    FrameBoundIsStable(srcSize, p, id);
    if dstCapacity < FrameBound(srcSize, prefs) { return TooSmall; }
    ghost var m, d0, s0 := cctx.mem[..], dst[..], cctx.fields;
    HeaderFits(srcSize, prefs);
    DefaultPrefs(prefs);
    r := cctx.CompressBegin(dst, 0, dstCapacity, prefs);
    ghost var s1, g1, d1, op1 := cctx.fields, cctx.written, dst[..], r.op;
    FrameStarts(s0, s1, srcSize, p, id, prefs);
    HeaderSent(g1, WithDefault(prefs), d0, d1, op1);
    assert cctx.mem[..] == m;
    r := cctx.CompressUpdate(srcAt, srcSize, dst, r.op, dstCapacity, true);
    ghost var s2, g2, d2, op2 := cctx.fields, cctx.written, dst[..], r.op;
    Buf.SentMore([], g1.sent, g2.sent, d0, d1, d2, 0, op1, op2);
    cctx.OpenParts(cctx.mem[..]);
    NothingLeft(s1, s2, g2, cctx.mem[..]);
    InputIsSource(g1.input, g2.input, m, srcAt, srcAt + srcSize);
    r := cctx.CompressEnd(dst, r.op, dstCapacity);
    if r.Done? {
      Buf.SentMore([], g2.sent, cctx.written.sent, d0, d2, dst[..], 0, op2, r.op);
      FrameSent(cctx.written, d0, dst[..], r.op);
      assert dst[..][..r.op] == dst[..r.op];
      assert m[srcAt..srcAt + srcSize] == old(cctx.mem[srcAt..srcAt + srcSize]);
    }
  }

  lemma IdsOfPrefs(p: Prefs)
    requires PrefsOk(p)
    ensures p.blockSizeID == 0 || 4 <= p.blockSizeID <= 7
  {
  }

  lemma IdIsValid(id: nat, requested: nat, srcSize: nat)
    requires (requested == 0 || 4 <= requested <= 7) && IsOptimal(id, requested, srcSize)
    ensures id == 0 || 4 <= id <= 7
  {
  }

  lemma HeaderFits(srcSize: nat, p: Prefs)
    requires PrefsOk(p)
    ensures HEADER_SIZE_MAX <= FrameBound(srcSize, p)
  {
    hide BoundInternal;
  }

  /** The context at the beginning of the frame, and the bound for its only update. */
  lemma FrameStarts(s0: Buf.Fields, s1: Buf.Fields, srcSize: nat, p: Prefs, id: nat, prefs: Prefs)
    requires PrefsOk(p) && IsOptimal(id, p.blockSizeID, srcSize) && (id == 0 || 4 <= id <= 7)
    requires prefs == Adjusted(p, srcSize, id) && PrefsOk(prefs)
    requires 4 <= WithDefault(prefs).blockSizeID <= 7 && s1 == Started(s0, WithDefault(prefs))
    requires Countable(srcSize, GetBlockSize(p.blockSizeID), true)
    ensures s1.open && s1.tmpInSize == 0 && PrefsOk(s1.prefs) && s1.prefs.autoFlush && s1.prefs.level == p.level
    ensures s1.prefs.contentSize == 0 || s1.prefs.contentSize == srcSize
    ensures Countable(s1.tmpInSize + srcSize, GetBlockSize(s1.prefs.blockSizeID), s1.prefs.autoFlush)
    ensures HEADER_SIZE_MAX + BoundInternal(srcSize, s1.prefs, s1.tmpInSize) == FrameBound(srcSize, prefs)
  {
    hide Full, Partial;
    if id != p.blockSizeID {
      OneBlock(srcSize, BlockSizeOf(id));
    }
  }

  lemma HeaderSent(g: Written, p: Prefs, d0: seq<byte>, d1: seq<byte>, op: nat)
    requires op <= |d1| && SameOutside(d0, d1, 0, op) && g == Beginning(p, d1[0..op])
    ensures Buf.Sent([], g.sent, d0, d1, 0, op) && g.input == []
  {
  }

  lemma NothingLeft(s1: Buf.Fields, s2: Buf.Fields, g: Written, m: seq<byte>)
    requires s1.prefs.autoFlush && Buf.SameContext(s1, s2.(totalInSize := s1.totalInSize)) && InFrame(s2, g, m)
    ensures EndSize(s2) == FrameEndSize(s2.prefs) && s2.prefs == s1.prefs
  {
    Buf.HeldBounds(s2, g, m);
  }

  lemma InputIsSource(before: seq<byte>, after: seq<byte>, m: seq<byte>, lo: nat, hi: nat)
    requires before == [] && Extended(before, after, m, lo, hi)
    ensures lo <= hi <= |m| && after == m[lo..hi] && |after| == hi - lo
  {
  }

  lemma FrameSent(g: Written, d0: seq<byte>, d: seq<byte>, op: nat)
    requires IsFrame(g, Frame(g.info, g.blocks)) && Buf.Sent([], g.sent, d0, d, 0, op)
    ensures op <= |d| && d[..op] == EncodeFrame(Frame(g.info, g.blocks)) && FrameContent(Frame(g.info, g.blocks)) == g.input
  {
    hide FrameOk, EncodeFrame, FrameContent;
  }

  // ----- Sessions -----

  /** What a caller may do between the beginning and the end of a frame. */
  datatype Op = Feed(chunk: seq<byte>) | FlushNow

  /** The input of a session. */
  function Fed(ops: seq<Op>): seq<byte> {
    if ops == [] then []
    else Fed(ops[..|ops| - 1]) + if ops[|ops| - 1].Feed? then ops[|ops| - 1].chunk else []
  }

  /** No call makes more blocks than 32 bits can count. */
  const MAX_CHUNK: nat := 0xFFFF_0000_0000

  predicate OpsOk(ops: seq<Op>) {
    forall i :: 0 <= i < |ops| && ops[i].Feed? ==> |ops[i].chunk| <= MAX_CHUNK
  }

  function LargestChunk(ops: seq<Op>): (n: nat)
    ensures forall i :: 0 <= i < |ops| && ops[i].Feed? ==> |ops[i].chunk| <= n
  {
    if ops == [] then 0
    else
      var n, op := LargestChunk(ops[..|ops| - 1]), ops[|ops| - 1];
      if op.Feed? && |op.chunk| > n then |op.chunk| else n
  }

  lemma ChunkIsCountable(total: nat, blockSize: nat, flush: bool)
    requires 0x1_0000 <= blockSize <= 0x40_0000 && total <= MAX_CHUNK + 0x40_0000
    ensures Countable(total, blockSize, flush)
  {
    hide Partial;
    if Full(total, blockSize) >= 0xFFFF_FFFF {
      NoFewer(0x1_0000, 0xFFFF_FFFF, Full(total, blockSize));
      assert blockSize * Full(total, blockSize) <= total;
      Product(0x1_0000, blockSize, Full(total, blockSize));
      assert false;
    }
  }

  lemma Product(a: nat, b: nat, q: nat)
    requires a <= b
    ensures a * q <= b * q
  {
  }

  /** LZ4F_compressUpdate with a chunk in the caller's memory. */
  method FeedChunk(cctx: Cctx, chunk: seq<byte>) returns (piece: seq<byte>)
    requires cctx.Open(cctx.mem[..]) && cctx.OwnHistory() && |chunk| <= MAX_CHUNK && BUFFER_END + 1 + |chunk| <= cctx.mem.Length
    modifies cctx, cctx.stream, cctx.stream.hashTable, cctx.xxh, cctx.xxh.mem, cctx.mem
    ensures cctx.Open(cctx.mem[..]) && cctx.OwnHistory() && cctx.fields.prefs == old(cctx.fields.prefs)
    ensures cctx.written.input == old(cctx.written.input) + chunk && cctx.written.sent == old(cctx.written.sent) + piece
  {
    hide *;
    ghost var m := cctx.mem[..];
    cctx.OpenParts(m);
    WriteOut(cctx.mem, BUFFER_END + 1, chunk);
    ghost var m' := cctx.mem[..];
    FrontKept(m, m', BUFFER_END + 1, BUFFER_END + 1 + |chunk|);
    cctx.OpenElsewhere(m, m');
    cctx.OpenParts(m');
    CountableCall(cctx.fields, cctx.written, m', |chunk|);
    var dst := new byte[BoundInternal(|chunk|, cctx.fields.prefs, cctx.fields.tmpInSize)];
    ghost var s, d, input, sent := cctx.fields, dst[..], cctx.written.input, cctx.written.sent;
    var r := cctx.CompressUpdate(BUFFER_END + 1, |chunk|, dst, 0, dst.Length, false);
    piece := dst[..r.op];
    InputIs(input, cctx.written.input, m', BUFFER_END + 1, chunk);
    SentIs(sent, cctx.written.sent, d, dst[..], r.op);
    Buf.ContextFields(s, cctx.fields.(totalInSize := s.totalInSize));
  }

  lemma FrontKept(m: seq<byte>, m': seq<byte>, lo: nat, hi: nat)
    requires SameOutside(m, m', lo, hi) && BUFFER_END < lo && BUFFER_END <= |m|
    ensures |m'| == |m| && m'[..BUFFER_END] == m[..BUFFER_END]
  {
  }

  lemma CountableCall(s: Buf.Fields, g: Written, m: seq<byte>, n: nat)
    requires InFrame(s, g, m) && n <= MAX_CHUNK
    ensures s.open && PrefsOk(s.prefs) && Countable(s.tmpInSize + n, GetBlockSize(s.prefs.blockSizeID), s.prefs.autoFlush)
  {
    hide Countable, WrittenOk;
    BlockSizeInForce(s, g, m);
    ChunkIsCountable(s.tmpInSize + n, GetBlockSize(s.prefs.blockSizeID), s.prefs.autoFlush);
  }

  lemma InputIs(before: seq<byte>, after: seq<byte>, m: seq<byte>, at: nat, chunk: seq<byte>)
    requires Extended(before, after, m, at, at + |chunk|) && m[at..at + |chunk|] == chunk
    ensures after == before + chunk
  {
  }

  lemma SentIs(before: seq<byte>, after: seq<byte>, d: seq<byte>, d': seq<byte>, op: nat)
    requires Buf.Sent(before, after, d, d', 0, op)
    ensures op <= |d'| && after == before + d'[..op]
  {
  }

  /** LZ4F_flush. */
  method FlushPiece(cctx: Cctx) returns (piece: seq<byte>)
    requires cctx.Open(cctx.mem[..]) && cctx.OwnHistory()
    modifies cctx, cctx.stream, cctx.stream.hashTable, cctx.mem
    ensures cctx.Open(cctx.mem[..]) && cctx.OwnHistory() && cctx.fields.prefs == old(cctx.fields.prefs)
    ensures cctx.written.input == old(cctx.written.input) && cctx.written.sent == old(cctx.written.sent) + piece && cctx.fields.tmpInSize == 0
  {
    hide *;
    cctx.OpenParts(cctx.mem[..]);
    InFrameParts(cctx.fields, cctx.written, cctx.mem[..]);
    var dst := new byte[cctx.fields.tmpInSize + BHSIZE + BFSIZE];
    ghost var s, g, d := cctx.fields, cctx.written, dst[..];
    var r := cctx.Flush(dst, 0, dst.Length);
    piece := dst[..r.op];
    SentIs(g.sent, cctx.written.sent, d, dst[..], r.op);
    Buf.ContextFields(s, cctx.fields);
    FrameFields(g, cctx.written);
  }

  /** LZ4F_compressEnd. */
  method EndPiece(cctx: Cctx) returns (piece: seq<byte>, ok: bool)
    requires cctx.Open(cctx.mem[..])
    modifies cctx, cctx.stream, cctx.stream.hashTable, cctx.mem
    ensures ok <==> cctx.fields.prefs.contentSize == 0 || cctx.fields.prefs.contentSize == |cctx.written.input|
    ensures cctx.fields.prefs == old(cctx.fields.prefs) && cctx.written.input == old(cctx.written.input)
    ensures ok ==> cctx.written.sent == old(cctx.written.sent) + piece && IsFrame(cctx.written, Frame(cctx.written.info, cctx.written.blocks))
    ensures ok ==> AllMade(cctx.hash, cctx.stream.hashTable.Length, cctx.fields.prefs.level, cctx.written.info, cctx.written.blocks)
  {
    hide *;
    var dst := new byte[EndSize(cctx.fields)];
    ghost var sent, d := cctx.written.sent, dst[..];
    var r := cctx.CompressEnd(dst, 0, dst.Length);
    ok, piece := r.Done?, [];
    if ok {
      piece := dst[..r.op];
      SentIs(sent, cctx.written.sent, d, dst[..], r.op);
    }
  }

  /** Any sequence of updates and flushes between the beginning and the end makes a frame
      whose content is all input; it fails only if another content size was announced. */
  method Session(ops: seq<Op>, p: Prefs, hash: FastStream.Hash, size: nat) returns (frame: seq<byte>, ok: bool, ghost f: Frame)
    requires PrefsOk(p) && OpsOk(ops) && FastStream.HashOk(hash, size)
    ensures ok <==> p.contentSize == 0 || p.contentSize == |Fed(ops)|
    ensures ok ==> FrameOk(f) && frame == EncodeFrame(f) && FrameContent(f) == Fed(ops)
    ensures ok ==> AllMade(hash, size, p.level, f.info, f.blocks)
  {
    hide FrameOk, EncodeFrame, FrameContent, AllMade, Cctx.Open, Cctx.Ready, Cctx.OwnHistory, SameOutside, Started, Beginning, FastStream.Stream.Ready;
    var mem := new byte[BUFFER_END + 1 + LargestChunk(ops)];
    var cctx := new Cctx(mem, hash, size);
    var header := new byte[HEADER_SIZE_MAX];
    ghost var s := cctx.fields;
    var r := cctx.CompressBegin(header, 0, HEADER_SIZE_MAX, p);
    frame := header[..r.op];
    assert header[..][0..r.op] == frame;
    SessionStarts(s, p, frame);
    var i := 0;
    while i < |ops|
      invariant i <= |ops| && cctx.mem == mem && fresh(cctx.stream.hashTable)
      invariant cctx.Open(mem[..]) && cctx.OwnHistory() && cctx.fields.prefs == WithDefault(p)
      invariant cctx.written.input == Fed(ops[..i]) && cctx.written.sent == frame
    {
      var piece := [];
      assert ops[..i + 1][..i] == ops[..i];
      if ops[i].Feed? {
        piece := FeedChunk(cctx, ops[i].chunk);
      } else {
        piece := FlushPiece(cctx);
        assert Fed(ops[..i]) + [] == Fed(ops[..i]);
      }
      frame := frame + piece;
      i := i + 1;
    }
    assert ops[..|ops|] == ops;
    var piece;
    piece, ok := EndPiece(cctx);
    frame := frame + piece;
    f := Frame(cctx.written.info, cctx.written.blocks);
  }

  lemma SessionStarts(s: Buf.Fields, p: Prefs, header: seq<byte>)
    requires PrefsOk(p)
    ensures 4 <= WithDefault(p).blockSizeID <= 7 && Started(s, WithDefault(p)).prefs == WithDefault(p)
    ensures Beginning(WithDefault(p), header).sent == header && Beginning(WithDefault(p), header).input == []
    ensures WithDefault(p).contentSize == p.contentSize && WithDefault(p).level == p.level
  {
  }

  /** Frame round trip: whatever session made the frame, and however it is cut when it is
      decoded, the input comes out. */
  method RoundTrip(ops: seq<Op>, p: Prefs, hash: FastStream.Hash, size: nat, dctx: FrameDecoder.Dctx, calls: seq<FrameChunks.Call>)
    returns (ok: bool, frame: seq<byte>, out: seq<byte>, complete: bool)
    requires PrefsOk(p) && OpsOk(ops) && FastStream.HashOk(hash, size) && dctx.Idle()
    modifies dctx, dctx.xxh, dctx.xxh.mem, dctx.blockSum, dctx.blockSum.mem
    ensures ok <==> p.contentSize == 0 || p.contentSize == |Fed(ops)|
    ensures ok ==> out <= Fed(ops) && (complete ==> out == Fed(ops))
    ensures ok && FrameChunks.Positive(calls) && |frame| + |Fed(ops)| <= |calls| ==> complete
  {
    hide *;
    ghost var f;
    frame, ok, f := Session(ops, p, hash, size);
    out, complete := [], false;
    if ok {
      WholeFrame(f, frame);
      var used;
      out, used, complete := FrameChunks.DecodeInPieces(dctx, frame, calls, f);
    }
  }

  lemma WholeFrame(f: Frame, frame: seq<byte>)
    requires FrameOk(f) && frame == EncodeFrame(f)
    ensures InfoOk(f.info) && EncodeFrame(f) <= frame
  {
    hide EncodeFrame;
  }
}
