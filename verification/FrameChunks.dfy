/** Decoding a frame by many calls of LZ4F_decompress: however input and output are cut,
    the same bytes come out.
 */
module FrameChunks {
  import opened Basics
  import opened BlockFormat
  import opened FrameBuffers
  import opened FrameFormat
  import opened FrameHistory
  import opened FrameDict
  import opened FrameDecoderState
  import opened FrameDecoder

  /** How much input a call is offered and how much room for output it has. */
  datatype Call = Call(input: nat, room: nat)

  // ----- What is delivered is a beginning of the content -----

  lemma BeforeOnly(f: Frame, i: nat, out: seq<byte>)
    requires i <= |f.blocks| && out <= Before(f, i)
    ensures out <= FrameContent(f)
  {
    hide FrameContent, Before;
    BeforeIsPrefix(f, i);
  }

  lemma RawOnly(s: Fields, g: Progress, d: seq<byte>, h: Sum, bh: Sum, left: nat)
    requires RawNext(s, g, d, h, bh, left)
    ensures g.out <= FrameContent(g.f)
  {
    hide HistoryOk, FrameContent;
    BeforeNext(g.f, g.i);
    hide FrameOk, Before;
    BeforeOnly(g.f, g.i + 1, g.out);
  }

  lemma BetweenOnly(s: Fields, g: Progress, d: seq<byte>, h: Sum)
    requires BetweenBlocks(s, g, d, h)
    ensures g.out <= FrameContent(g.f)
  {
    hide FrameOk, Before, HistoryOk, FrameContent;
    BeforeOnly(g.f, g.i, g.out);
  }

  lemma FlushOnly(s: Fields, g: Progress, d: seq<byte>, h: Sum)
    requires AtFlushOut(s, g, d, h)
    ensures g.out <= FrameContent(g.f)
  {
    hide FrameOk, Before, FlushHist, FrameContent, FrameFrom;
    BeforeOnly(g.f, g.i, g.out);
  }

  lemma OutputIsPrefix(s: Fields, g: Progress, d: seq<byte>, h: Sum, bh: Sum)
    requires AtStage(s, g, d, h, bh)
    ensures g.out <= FrameContent(g.f)
  {
    hide BetweenBlocks, RawNext, AtFlushOut, PackedNext, Fresh, Ready, EncodeFrame, FrameFrom, FrameContent, CBlockFrom, BlockSum;
    if s.stage == CopyDirect {
      RawOnly(s, g, d, h, bh, s.tmpInTarget);
    } else if s.stage == GetBlockChecksum {
      RawOnly(s, g, d, h, bh, 0);
    } else if s.stage == FlushOut {
      FlushOnly(s, g, d, h);
    } else if s.stage == GetBlockHeader || s.stage == StoreBlockHeader || s.stage == GetCBlock || s.stage == StoreCBlock {
      BetweenOnly(s, g, d, h);
    } else if !InSuffix(s.stage) {
      NothingYet(s, g);
    }
  }

  lemma NothingYet(s: Fields, g: Progress)
    requires AtGetFrameHeader(s, g) || AtStoreFrameHeader(s, g) || AtInit(s, g)
    ensures g.out == []
  {
  }

  // ----- Input -----

  /** A piece of the input agrees with the rest of the frame. */
  lemma PieceAgrees(src: seq<byte>, used: nat, n: nat, whole: seq<byte>)
    requires whole <= src && used <= |whole| && used + n <= |src|
    ensures Agrees(src[used..used + n], 0, whole[used..])
  {
  }

  lemma RestOfRest(whole: seq<byte>, used: nat, n: nat)
    requires used <= |whole| && n <= |whole| - used
    ensures whole[used..][n..] == whole[used + n..]
  {
  }

  predicate Positive(calls: seq<Call>) {
    forall i :: 0 <= i < |calls| ==> 0 < calls[i].input && 0 < calls[i].room
  }

  /** Every call may cut its input anywhere and have any room, each time in another
      buffer.  What comes out is a beginning of the content; the calls end with 0 exactly
      at the end of the frame, having read nothing behind it.  Calls that offer something
      and have room for something make progress. */
  method DecodeInPieces(dctx: Dctx, src: seq<byte>, calls: seq<Call>, ghost f: Frame)
    returns (out: seq<byte>, used: nat, complete: bool)
    requires dctx.Idle() && FrameOk(f) && EncodeFrame(f) <= src
    modifies dctx, dctx.xxh, dctx.xxh.mem, dctx.blockSum, dctx.blockSum.mem
    ensures out <= FrameContent(f) && used <= |EncodeFrame(f)|
    ensures complete <==> used == |EncodeFrame(f)|
    ensures complete ==> out == FrameContent(f) && dctx.Idle()
    ensures Positive(calls) && |EncodeFrame(f)| + |FrameContent(f)| <= |calls| ==> complete
  {
    hide FrameOk, EncodeFrame, FrameContent, AtStage, BuffersOk, Dctx.Sums, Agrees, LiveDict, IdleFields;
    FrameSplits(f);
    ghost var whole := EncodeFrame(f);
    dctx.Begin(f, []);
    out, used, complete := [], 0, false;
    var i := 0;
    while i < |calls| && !complete
      invariant i <= |calls| && dctx.progress.f == f && dctx.progress.out == out && used <= |whole| && dctx.progress.todo == whole[used..]
      invariant complete <==> used == |whole|
      invariant complete ==> out == FrameContent(f) && dctx.Idle()
      invariant !complete ==> dctx.Decoding([]) && LiveDict(dctx.fields).buf != InDst
      invariant !complete && Positive(calls) ==> i <= used + |out|
    {
      var n := Min(calls[i].input, |src| - used);
      PieceAgrees(src, used, n, whole);
      var piece;
      complete, used, piece := DecodePiece(dctx, src[used..used + n], calls[i].room, used, whole);
      out := out + piece;
      i := i + 1;
    }
    if !complete {
      OutputIsPrefix(dctx.fields, dctx.progress, [], dctx.ContentSum(), dctx.RawSum());
    }
  }

  /** One call, with an output buffer of its own. */
  method DecodePiece(dctx: Dctx, src: seq<byte>, room: nat, used: nat, ghost whole: seq<byte>)
    returns (complete: bool, used': nat, piece: seq<byte>)
    requires dctx.Decoding([]) && LiveDict(dctx.fields).buf != InDst
    requires used < |whole| && dctx.progress.todo == whole[used..] && Agrees(src, 0, dctx.progress.todo)
    modifies dctx, dctx.xxh, dctx.xxh.mem, dctx.blockSum, dctx.blockSum.mem
    ensures used <= used' <= |whole| && dctx.progress.f == old(dctx.progress.f) && dctx.progress.todo == whole[used'..]
    ensures dctx.progress.out == old(dctx.progress.out) + piece
    ensures complete <==> used' == |whole|
    ensures complete ==> dctx.Idle() && dctx.progress.out == FrameContent(dctx.progress.f)
    ensures !complete ==> dctx.Decoding([]) && LiveDict(dctx.fields).buf != InDst
    ensures !complete && 0 < |src| && 0 < room ==> used < used' || 0 < |piece|
  {
    hide FrameContent, AtStage, BuffersOk, Dctx.Sums, Agrees, LiveDict, IdleFields;
    var dst := new byte[room];
    OtherOutput(dctx.fields, dctx.progress, [], dst[..], dctx.ContentSum(), dctx.RawSum());
    var hint, consumed, produced := dctx.Decompress(src, dst, 0, room, false, false);
    complete, used', piece := hint == 0, used + consumed, dst[..produced];
    assert dst[..][0..0 + produced] == piece;
    RestOfRest(whole, used, consumed);
    if !complete {
      OtherOutput(dctx.fields, dctx.progress, dst[..], [], dctx.ContentSum(), dctx.RawSum());
    }
  }

  /** The same with one output buffer that keeps its contents (stableDst): linked blocks
      may then refer to the output itself. */
  method DecodeStable(dctx: Dctx, src: seq<byte>, inputs: seq<nat>, dst: array<byte>, ghost f: Frame)
    returns (produced: nat, used: nat, complete: bool)
    requires dctx.Idle() && FrameOk(f) && EncodeFrame(f) <= src && dst != dctx.xxh.mem && dst != dctx.blockSum.mem
    modifies dctx, dst, dctx.xxh, dctx.xxh.mem, dctx.blockSum, dctx.blockSum.mem
    ensures produced <= dst.Length && dst[..produced] <= FrameContent(f) && used <= |EncodeFrame(f)|
    ensures complete <==> used == |EncodeFrame(f)|
    ensures complete ==> dst[..produced] == FrameContent(f) && dctx.Idle()
  {
    hide FrameOk, EncodeFrame, FrameContent, AtStage, BuffersOk, Dctx.Sums, Agrees, LiveDict, IdleFields;
    FrameSplits(f);
    ghost var whole := EncodeFrame(f);
    dctx.Begin(f, dst[..]);
    produced, used, complete := 0, 0, false;
    var i := 0;
    while i < |inputs| && !complete
      invariant i <= |inputs| && produced <= dst.Length && used <= |whole|
      invariant dctx.progress.f == f && dctx.progress.out == dst[..produced] && dctx.progress.todo == whole[used..]
      invariant complete <==> used == |whole|
      invariant complete ==> dst[..produced] == FrameContent(f) && dctx.Idle()
      invariant !complete ==> dctx.Decoding(dst[..])
      invariant !complete && LiveDict(dctx.fields).buf == InDst ==>
        dctx.fields.dict.at + dctx.fields.dict.size <= produced || dst.Length <= dctx.fields.dict.at
    {
      var n := Min(inputs[i], |src| - used);
      PieceAgrees(src, used, n, whole);
      complete, used, produced := DecodeBehind(dctx, src[used..used + n], dst, produced, used, whole);
      i := i + 1;
    }
    if !complete {
      OutputIsPrefix(dctx.fields, dctx.progress, dst[..], dctx.ContentSum(), dctx.RawSum());
    }
  }

  /** One call, with all the room behind the earlier output. */
  method DecodeBehind(dctx: Dctx, src: seq<byte>, dst: array<byte>, produced: nat, used: nat, ghost whole: seq<byte>)
    returns (complete: bool, used': nat, produced': nat)
    requires dctx.Decoding(dst[..]) && produced <= dst.Length && dst != dctx.xxh.mem && dst != dctx.blockSum.mem
    requires LiveDict(dctx.fields).buf == InDst ==>
      dctx.fields.dict.at + dctx.fields.dict.size <= produced || dst.Length <= dctx.fields.dict.at
    requires used < |whole| && dctx.progress.todo == whole[used..] && Agrees(src, 0, dctx.progress.todo) && dctx.progress.out == dst[..produced]
    modifies dctx, dst, dctx.xxh, dctx.xxh.mem, dctx.blockSum, dctx.blockSum.mem
    ensures used <= used' <= |whole| && dctx.progress.f == old(dctx.progress.f) && dctx.progress.todo == whole[used'..]
    ensures produced <= produced' <= dst.Length && dctx.progress.out == dst[..produced']
    ensures complete <==> used' == |whole|
    ensures complete ==> dctx.Idle() && dctx.progress.out == FrameContent(dctx.progress.f)
    ensures !complete ==> dctx.Decoding(dst[..])
    ensures !complete && LiveDict(dctx.fields).buf == InDst ==>
      dctx.fields.dict.at + dctx.fields.dict.size <= produced' || dst.Length <= dctx.fields.dict.at
  {
    hide *;
    ghost var d := dst[..];
    assert d[..produced] == dst[..produced];
    var hint, consumed, more := dctx.Decompress(src, dst, produced, dst.Length, true, false);
    RestOfRest(whole, used, consumed);
    OutputStays(d, dst[..], produced, more);
    complete, used', produced' := hint == 0, used + consumed, produced + more;
    assert dst[..produced'] == dst[..][..produced'];
  }

  /** Earlier output stays. */
  lemma OutputStays(d: seq<byte>, d': seq<byte>, at: nat, n: nat)
    requires SameOutside(d, d', at, |d|) && at + n <= |d|
    ensures |d'| == |d| && d'[..at + n] == d[..at] + d'[at..at + n]
  {
  }
}
