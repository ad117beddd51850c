/** LZ4F_compressUpdate, step by step: what is buffered, what is compressed, and where the
    history of linked blocks is kept.
 */
module FrameBuffering {
  import opened Basics
  import opened BlockFormat
  import opened FrameBuffers
  import opened FrameFormat
  import opened FrameHistory
  import opened FrameBounds
  import opened FrameBlockWriter
  import FrameDict
  import FastStream

  /** LZ4F_cctx_s, except for its stream and its hash state.  `tmpIn` is an offset in the
      internal buffer, which lies at 0. */
  datatype Fields = Fields(open: bool, prefs: Prefs, maxBlockSize: nat, maxBufferSize: nat,
                           tmpIn: nat, tmpInSize: nat, totalInSize: nat)

  datatype LastBlock = NotDone | FromTmpBuffer | FromSrcBuffer

  // ----- Invariants -----

  /** The buffer fits the preferences; less than a block is buffered. */
  ghost predicate Held(s: Fields, g: Written, m: seq<byte>) {
    && PrefsOk(s.prefs) && 4 <= s.prefs.blockSizeID <= 7 && s.maxBlockSize == BlockSizeOf(s.prefs.blockSizeID)
    && g.info == InfoOf(s.prefs) && WrittenOk(g)
    && s.tmpIn + s.tmpInSize <= s.maxBufferSize <= BUFFER_END <= |m| && s.tmpInSize < s.maxBlockSize
    && (s.prefs.autoFlush ==> s.tmpInSize == 0) && (!s.prefs.linked ==> s.tmpIn == 0)
    && (s.prefs.linked ==> KB64 <= s.maxBufferSize)
    && (!s.prefs.autoFlush ==> s.maxBlockSize + (if s.prefs.linked then FrameDict.KB128 else 0) <= s.maxBufferSize)
  }

  /** Without autoFlush a full block can be buffered. */
  predicate RoomForBlock(s: Fields) {
    s.prefs.autoFlush || s.tmpIn + s.maxBlockSize <= s.maxBufferSize
  }

  /** The buffered input. */
  function Buffered(s: Fields, m: seq<byte>): seq<byte>
    requires s.tmpIn + s.tmpInSize <= |m|
  {
    m[s.tmpIn..s.tmpIn + s.tmpInSize]
  }

  /** What the blocks made of `total` bytes take at most. */
  function RoomFor(s: Fields, total: nat): nat
    requires 0 < s.maxBlockSize
  {
    Room(total, s.maxBlockSize, Crc(s.prefs), s.prefs.autoFlush)
  }

  /** Compressed blocks, the buffer, then the sources from `pos` on: all of `goal`. */
  ghost predicate Toward(s: Fields, g: Written, m: seq<byte>, pos: nat, end: nat, goal: seq<byte>) {
    && BUFFER_END < pos <= end <= |m| && s.tmpIn + s.tmpInSize <= |m|
    && g.done + Buffered(s, m) + m[pos..end] == goal
  }

  lemma HeldBounds(s: Fields, g: Written, m: seq<byte>)
    requires Held(s, g, m)
    ensures s.tmpIn + s.tmpInSize <= s.maxBufferSize <= BUFFER_END <= |m| && s.tmpInSize < s.maxBlockSize
    ensures 0x1_0000 <= s.maxBlockSize <= 0x40_0000 && 4 <= s.prefs.blockSizeID <= 7
    ensures s.maxBlockSize == BlockSizeOf(s.prefs.blockSizeID) && g.info == InfoOf(s.prefs) && WrittenOk(g)
    ensures (s.prefs.autoFlush ==> s.tmpInSize == 0) && (!s.prefs.linked ==> s.tmpIn == 0)
    ensures s.prefs.linked ==> KB64 <= s.maxBufferSize
    ensures !s.prefs.autoFlush ==> s.maxBlockSize + (if s.prefs.linked then FrameDict.KB128 else 0) <= s.maxBufferSize
  {
  }

  // ----- The buffer -----

  /** memcpy into the internal buffer, behind what is buffered. */
  method FillTmp(mem: array<byte>, s: Fields, from: nat, n: nat)
    requires s.tmpIn + s.tmpInSize + n <= BUFFER_END < from && from + n <= mem.Length
    modifies mem
    ensures SameOutside(old(mem[..]), mem[..], s.tmpIn + s.tmpInSize, s.tmpIn + s.tmpInSize + n)
    ensures mem[..][s.tmpIn..s.tmpIn + s.tmpInSize + n] == old(mem[..])[s.tmpIn..s.tmpIn + s.tmpInSize] + old(mem[..])[from..from + n]
  {
    ghost var m := mem[..];
    WriteOut(mem, s.tmpIn + s.tmpInSize, mem[from..from + n]);
    ghost var m' := mem[..];
    assert m'[s.tmpIn..s.tmpIn + s.tmpInSize] == m[s.tmpIn..s.tmpIn + s.tmpInSize];
    assert m'[s.tmpIn..s.tmpIn + s.tmpInSize + n] == m'[s.tmpIn..s.tmpIn + s.tmpInSize] + m'[s.tmpIn + s.tmpInSize..s.tmpIn + s.tmpInSize + n];
  }

  /** Writing behind `tmpIn` in the buffer does not touch the history. */
  lemma HistUntouched(dictionary: nat, dictSize: nat, m: seq<byte>, m': seq<byte>, done: seq<byte>, tmpIn: nat, lo: nat, hi: nat)
    requires HistAt(dictionary, dictSize, m, done) && Clear(dictionary, dictSize, tmpIn)
    requires tmpIn <= lo <= hi <= BUFFER_END && SameOutside(m, m', lo, hi)
    ensures HistAt(dictionary, dictSize, m', done)
  {
    if dictSize == 0 {
      assert m[dictionary..dictionary] == m'[dictionary..dictionary];
    } else {
      SliceOutside(m, m', lo, hi, dictionary, dictionary + dictSize);
    }
  }

  /** LZ4F_localSaveDict: the last 64 KB of history move to the front of the buffer. */
  method SaveHistory(stream: FastStream.Stream, hash: FastStream.Hash, mem: array<byte>, s: Fields, ghost done: seq<byte>)
    returns (s': Fields)
    requires StreamOk(stream, hash, true, mem[..], done, s.tmpIn) && s.tmpInSize == 0 && KB64 <= s.maxBufferSize <= mem.Length
    modifies stream, mem
    ensures s' == s.(tmpIn := s'.tmpIn) && s'.tmpIn <= KB64 && SameOutside(old(mem[..]), mem[..], 0, KB64)
    ensures StreamOk(stream, hash, true, mem[..], done, s'.tmpIn) && stream.dictionary + stream.dictSize == s'.tmpIn
  {
    hide FastStream.Stream.Valid;
    ghost var m, dictionary, dictSize := mem[..], stream.dictionary, stream.dictSize;
    var realDictSize := stream.SaveDict(mem, 0, KB64);
    s' := s.(tmpIn := realDictSize);
    ghost var m' := mem[..];
    assert mem[0..0 + realDictSize] == m'[0..0 + realDictSize];
    HistSuffix(m, dictionary, dictSize, done, dictionary + dictSize - realDictSize, realDictSize);
  }

  // ----- LZ4F_compressUpdate, step by step -----

  /** The bytes sent since `sent0` are `d[op0..op]`. */
  predicate Sent(sent0: seq<byte>, sent: seq<byte>, d0: seq<byte>, d: seq<byte>, op0: nat, op: nat) {
    SameOutside(d0, d, op0, op) && Extended(sent0, sent, d, op0, op)
  }

  lemma SentMore(sent0: seq<byte>, sent1: seq<byte>, sent2: seq<byte>, d0: seq<byte>, d1: seq<byte>, d2: seq<byte>, op0: nat, op1: nat, op2: nat)
    requires Sent(sent0, sent1, d0, d1, op0, op1) && Sent(sent1, sent2, d1, d2, op1, op2)
    ensures Sent(sent0, sent2, d0, d2, op0, op2)
  {
    assert d2[op0..op1] == d1[op0..op1];
    assert d2[op0..op2] == d2[op0..op1] + d2[op1..op2];
  }

  lemma NothingSent(g: Written, d: seq<byte>, op: nat)
    requires op <= |d|
    ensures Sent(g.sent, g.sent, d, d, op, op) && SameFrame(g, g)
  {
    assert d[op..op] == [];
  }

  lemma InBuffer(m: seq<byte>, m': seq<byte>, lo: nat, hi: nat)
    requires SameOutside(m, m', lo, hi) && hi <= BUFFER_END
    ensures SameOutside(m, m', 0, BUFFER_END) && |m| == |m'|
  {
  }

  /** The part of the source is behind what was buffered before. */
  predicate Filled(s: Fields, s': Fields, m: seq<byte>, m': seq<byte>, from: nat, to: nat) {
    && from <= to <= |m| == |m'| && s' == s.(tmpInSize := s.tmpInSize + (to - from)) && s'.tmpIn + s'.tmpInSize <= |m'|
    && Extended(Buffered(s, m), Buffered(s', m'), m, from, to)
  }

  /** Buffers a part of the source. */
  method FillKeeping(stream: FastStream.Stream, hash: FastStream.Hash, mem: array<byte>, s: Fields, from: nat, to: nat, ghost done: seq<byte>)
    returns (s': Fields)
    requires StreamOk(stream, hash, s.prefs.linked, mem[..], done, s.tmpIn)
    requires from <= to <= mem.Length && s.tmpIn + s.tmpInSize + (to - from) <= BUFFER_END < from
    modifies mem
    ensures StreamOk(stream, hash, s.prefs.linked, mem[..], done, s.tmpIn)
    ensures SameOutside(old(mem[..]), mem[..], 0, BUFFER_END)
    ensures Filled(s, s', old(mem[..]), mem[..], from, to)
  {
    hide FastStream.Stream.Valid, SameOutside, HistAt, Clear;
    ghost var m := mem[..];
    FillTmp(mem, s, from, to - from);
    s' := s.(tmpInSize := s.tmpInSize + (to - from));
    if s.prefs.linked {
      HistUntouched(stream.dictionary, stream.dictSize, m, mem[..], done, s.tmpIn, s.tmpIn + s.tmpInSize, s.tmpIn + s'.tmpInSize);
    }
    InBuffer(m, mem[..], s.tmpIn + s.tmpInSize, s.tmpIn + s'.tmpInSize);
  }

  /** All of the source fits the block that is being buffered. */
  method BufferAll(stream: FastStream.Stream, hash: FastStream.Hash, mem: array<byte>, s: Fields, srcAt: nat, srcEnd: nat,
                   ghost g: Written, ghost goal: seq<byte>)
    returns (s': Fields)
    requires Held(s, g, mem[..]) && RoomForBlock(s) && !s.prefs.autoFlush && StreamOk(stream, hash, s.prefs.linked, mem[..], g.done, s.tmpIn)
    requires Toward(s, g, mem[..], srcAt, srcEnd, goal) && s.tmpInSize + (srcEnd - srcAt) < s.maxBlockSize
    modifies mem
    ensures RoomForBlock(s') && s' == s.(tmpInSize := s.tmpInSize + (srcEnd - srcAt))
    ensures Held(s', g, mem[..]) && StreamOk(stream, hash, s.prefs.linked, mem[..], g.done, s.tmpIn)
    ensures Toward(s', g, mem[..], srcEnd, srcEnd, goal) && SameOutside(old(mem[..]), mem[..], 0, BUFFER_END)
  {
    hide *;
    ghost var m := mem[..];
    BufferBounds(s, g, m, srcAt, srcEnd, goal);
    s' := FillKeeping(stream, hash, mem, s, srcAt, srcEnd, g.done);
    AllBuffered(s, s', g, m, mem[..], srcAt, srcEnd, goal);
  }

  lemma BufferBounds(s: Fields, g: Written, m: seq<byte>, srcAt: nat, srcEnd: nat, goal: seq<byte>)
    requires Held(s, g, m) && Toward(s, g, m, srcAt, srcEnd, goal)
    ensures s.tmpIn + s.tmpInSize <= s.maxBufferSize <= BUFFER_END < srcAt <= srcEnd <= |m| && s.tmpInSize < s.maxBlockSize
    ensures RoomForBlock(s) && !s.prefs.autoFlush ==> s.tmpIn + s.maxBlockSize <= BUFFER_END
    ensures 4 <= s.prefs.blockSizeID <= 7 && s.maxBlockSize == BlockSizeOf(s.prefs.blockSizeID)
    ensures g.info == InfoOf(s.prefs) && WrittenOk(g)
  {
  }

  lemma AllBuffered(s: Fields, s': Fields, g: Written, m: seq<byte>, m': seq<byte>, srcAt: nat, srcEnd: nat, goal: seq<byte>)
    requires Held(s, g, m) && RoomForBlock(s) && !s.prefs.autoFlush && Toward(s, g, m, srcAt, srcEnd, goal)
    requires s.tmpInSize + (srcEnd - srcAt) < s.maxBlockSize && Filled(s, s', m, m', srcAt, srcEnd)
    ensures Held(s', g, m') && Toward(s', g, m', srcEnd, srcEnd, goal)
    ensures RoomForBlock(s') && s' == s.(tmpInSize := s.tmpInSize + (srcEnd - srcAt))
  {
    hide WrittenOk, BlockSizeOf;
    assert g.done + Buffered(s, m) + m[srcAt..srcEnd] == g.done + (Buffered(s, m) + m[srcAt..srcEnd]);
    assert m'[srcEnd..srcEnd] == [];
    assert g.done + Buffered(s', m') + [] == g.done + Buffered(s', m');
  }

  /** The buffered block is completed and compressed. */
  method CompleteBlock(stream: FastStream.Stream, hash: FastStream.Hash, mem: array<byte>, s: Fields, srcAt: nat, srcEnd: nat,
                       dst: array<byte>, op: nat, ghost limit: nat, ghost g: Written, ghost goal: seq<byte>)
    returns (s': Fields, pos: nat, op': nat, ghost g': Written)
    requires mem != dst && Held(s, g, mem[..]) && RoomForBlock(s) && !s.prefs.autoFlush
    requires StreamOk(stream, hash, s.prefs.linked, mem[..], g.done, s.tmpIn)
    requires Toward(s, g, mem[..], srcAt, srcEnd, goal) && s.maxBlockSize <= s.tmpInSize + (srcEnd - srcAt)
    requires Fits(s, srcAt, srcEnd, op, limit) && limit <= dst.Length
    modifies mem, dst, stream, stream.hashTable
    ensures Completed(s, s.maxBlockSize, s') && srcAt <= pos <= srcEnd && Fits(s', pos, srcEnd, op', limit)
    ensures s.prefs.linked ==> stream.dictionary + stream.dictSize == s'.tmpIn
    ensures Held(s', g', mem[..]) && StreamOk(stream, hash, s.prefs.linked, mem[..], g'.done, s'.tmpIn)
    ensures Toward(s', g', mem[..], pos, srcEnd, goal) && SameOutside(old(mem[..]), mem[..], 0, BUFFER_END)
    ensures SameFrame(g, g') && Sent(g.sent, g'.sent, old(dst[..]), dst[..], op, op')
    ensures MadeOk(hash, stream.hashTable.Length, s.prefs.level, g) ==> MadeOk(hash, stream.hashTable.Length, s.prefs.level, g')
  {
    hide *;
    ghost var m, d := mem[..], dst[..];
    BlockFitsBuffer(s, g, m, srcAt, srcEnd, goal, op, limit);
    var s1;
    s1, pos := FillBlock(stream, hash, mem, s, srcAt, srcEnd, g.done);
    var m' := mem[..];
    assert dst[..] == d;
    op', s', g' := CompressBuffered(stream, hash, m', s, s.maxBlockSize, dst, op, g);
    assert mem[..] == m';
    HeldAfter(s, s', g, g', m, m');
    TowardAfter(s, s1, s', g, g', m, m', srcAt, pos, srcEnd, goal);
    RoomAfter(s, s', srcAt, pos, srcEnd, op, op', limit);
  }

  /** The blocks made of the buffer and the rest of the source end before `limit`. */
  predicate Fits(s: Fields, pos: nat, end: nat, op: nat, limit: nat) {
    0 < s.maxBlockSize && pos <= end && op + RoomFor(s, s.tmpInSize + (end - pos)) <= limit
  }

  lemma BlockFitsBuffer(s: Fields, g: Written, m: seq<byte>, srcAt: nat, srcEnd: nat, goal: seq<byte>, op: nat, limit: nat)
    requires Held(s, g, m) && RoomForBlock(s) && !s.prefs.autoFlush && Toward(s, g, m, srcAt, srcEnd, goal)
    requires s.maxBlockSize <= s.tmpInSize + (srcEnd - srcAt) && Fits(s, srcAt, srcEnd, op, limit)
    ensures s.tmpInSize < s.maxBlockSize && BUFFER_END < srcAt <= srcEnd <= |m|
    ensures s.tmpIn + s.maxBlockSize <= BUFFER_END <= |m| && op + BHSIZE + s.maxBlockSize + Crc(s.prefs) <= limit
    ensures 4 <= s.prefs.blockSizeID <= 7 && s.maxBlockSize == BlockSizeOf(s.prefs.blockSizeID)
    ensures g.info == InfoOf(s.prefs) && WrittenOk(g)
  {
    hide WrittenOk, BlockSizeOf;
    RoomStep(s, s.tmpInSize + (srcEnd - srcAt));
  }

  /** As much of the source as completes the block. */
  method FillBlock(stream: FastStream.Stream, hash: FastStream.Hash, mem: array<byte>, s: Fields, srcAt: nat, srcEnd: nat, ghost done: seq<byte>)
    returns (s1: Fields, pos: nat)
    requires StreamOk(stream, hash, s.prefs.linked, mem[..], done, s.tmpIn) && srcAt <= srcEnd <= mem.Length
    requires s.tmpIn + s.maxBlockSize <= BUFFER_END < srcAt && s.tmpInSize < s.maxBlockSize <= s.tmpInSize + (srcEnd - srcAt)
    modifies mem
    ensures srcAt <= pos <= srcEnd && pos - srcAt == s.maxBlockSize - s.tmpInSize && Filled(s, s1, old(mem[..]), mem[..], srcAt, pos)
    ensures StreamOk(stream, hash, s.prefs.linked, mem[..], done, s.tmpIn)
    ensures SameOutside(old(mem[..]), mem[..], 0, BUFFER_END)
  {
    hide *;
    pos := srcAt + (s.maxBlockSize - s.tmpInSize);
    s1 := FillKeeping(stream, hash, mem, s, srcAt, pos, done);
  }

  /** What is left of the context when a block of `n` bytes has been made of its buffer. */
  predicate Completed(s: Fields, n: nat, s': Fields) {
    s' == s.(tmpIn := if s.prefs.linked then s.tmpIn + n else s.tmpIn, tmpInSize := 0)
  }

  /** The block of `n` bytes at `tmpIn`. */
  method CompressBuffered(stream: FastStream.Stream, hash: FastStream.Hash, m: seq<byte>, s: Fields, n: nat,
                          dst: array<byte>, op: nat, ghost g: Written)
    returns (op': nat, s': Fields, ghost g': Written)
    requires 4 <= s.prefs.blockSizeID <= 7 && 1 <= n <= BlockSizeOf(s.prefs.blockSizeID)
    requires g.info == InfoOf(s.prefs) && WrittenOk(g) && StreamOk(stream, hash, s.prefs.linked, m, g.done, s.tmpIn)
    requires s.tmpIn + n <= BUFFER_END <= |m| && op + BHSIZE + n + Crc(s.prefs) <= dst.Length
    modifies dst, stream, stream.hashTable
    ensures Completed(s, n, s') && WrittenOk(g') && (s.prefs.linked ==> stream.dictionary + stream.dictSize == s'.tmpIn)
    ensures SameFrame(g, g') && Extended(g.done, g'.done, m, s.tmpIn, s.tmpIn + n)
    ensures Sent(g.sent, g'.sent, old(dst[..]), dst[..], op, op') && op' <= op + BHSIZE + n + Crc(s.prefs)
    ensures StreamOk(stream, hash, s.prefs.linked, m, g'.done, s'.tmpIn)
    ensures MadeOk(hash, stream.hashTable.Length, s.prefs.level, g) ==> MadeOk(hash, stream.hashTable.Length, s.prefs.level, g')
  {
    hide WrittenOk, StreamOk, SameOutside, InfoOf, BlockMade, MadeOk;
    op', g' := MakeBlock(stream, hash, m, s.tmpIn, n, s.prefs, dst, op, g, s.tmpIn);
    s' := s.(tmpIn := if s.prefs.linked then s.tmpIn + n else s.tmpIn, tmpInSize := 0);
  }

  lemma RoomStep(s: Fields, total: nat)
    requires 0 < s.maxBlockSize <= total
    ensures RoomFor(s, total) == BHSIZE + Crc(s.prefs) + s.maxBlockSize + RoomFor(s, total - s.maxBlockSize)
  {
  }

  lemma TowardAfter(s: Fields, s1: Fields, s': Fields, g: Written, g': Written, m: seq<byte>, m': seq<byte>,
                    srcAt: nat, pos: nat, srcEnd: nat, goal: seq<byte>)
    requires Toward(s, g, m, srcAt, srcEnd, goal) && Filled(s, s1, m, m', srcAt, pos) && pos - srcAt == s.maxBlockSize - s.tmpInSize
    requires pos <= srcEnd && Completed(s, s.maxBlockSize, s') && s.tmpIn + s.maxBlockSize <= |m'| && SameOutside(m, m', 0, BUFFER_END)
    requires Extended(g.done, g'.done, m', s.tmpIn, s.tmpIn + s.maxBlockSize)
    ensures Toward(s', g', m', pos, srcEnd, goal)
  {
    assert Buffered(s1, m') == m'[s.tmpIn..s.tmpIn + s.maxBlockSize];
    hide Buffered;
    SourceCut(g.done, Buffered(s, m), Buffered(s1, m'), m, m', srcAt, pos, srcEnd);
    NothingBuffered(s', m', g'.done);
  }

  lemma NothingBuffered(s: Fields, m: seq<byte>, done: seq<byte>)
    requires s.tmpInSize == 0 && s.tmpIn <= |m|
    ensures done + Buffered(s, m) == done
  {
  }

  lemma HeldAfter(s: Fields, s': Fields, g: Written, g': Written, m: seq<byte>, m': seq<byte>)
    requires Held(s, g, m) && RoomForBlock(s) && !s.prefs.autoFlush && Completed(s, s.maxBlockSize, s') && |m'| == |m|
    requires WrittenOk(g') && SameFrame(g, g')
    ensures Held(s', g', m')
  {
    hide WrittenOk, BlockSizeOf;
  }

  lemma RoomAfter(s: Fields, s': Fields, srcAt: nat, pos: nat, srcEnd: nat, op: nat, op': nat, limit: nat)
    requires Completed(s, s.maxBlockSize, s') && Fits(s, srcAt, srcEnd, op, limit) && srcAt <= pos <= srcEnd
    requires pos - srcAt == s.maxBlockSize - s.tmpInSize && op' <= op + BHSIZE + s.maxBlockSize + Crc(s.prefs)
    ensures Fits(s', pos, srcEnd, op', limit)
  {
    RoomStep(s, s.tmpInSize + (srcEnd - srcAt));
    assert s.tmpInSize + (srcEnd - srcAt) - s.maxBlockSize == s'.tmpInSize + (srcEnd - pos);
  }

  lemma SourceCut(done: seq<byte>, x: seq<byte>, y: seq<byte>, m: seq<byte>, m': seq<byte>, srcAt: nat, pos: nat, srcEnd: nat)
    requires BUFFER_END < srcAt <= pos <= srcEnd <= |m| && SameOutside(m, m', 0, BUFFER_END) && y == x + m[srcAt..pos]
    ensures done + x + m[srcAt..srcEnd] == done + y + m'[pos..srcEnd]
  {
    assert m[srcAt..srcEnd] == m[srcAt..pos] + m[pos..srcEnd];
    SliceOutside(m, m', 0, BUFFER_END, pos, srcEnd);
  }

  /** Since `g0`, the blocks up to `pos` have been written to `d[op0..op]`. */
  ghost predicate OnTheWay(s: Fields, g0: Written, g: Written, m: seq<byte>, pos: nat, srcEnd: nat, goal: seq<byte>,
                           d0: seq<byte>, d: seq<byte>, op0: nat, op: nat, limit: nat)
  {
    && Held(s, g, m) && s.tmpInSize == 0 && Toward(s, g, m, pos, srcEnd, goal) && Fits(s, pos, srcEnd, op, limit)
    && SameFrame(g0, g) && Sent(g0.sent, g.sent, d0, d, op0, op)
  }

  lemma SetOut(s: Fields, g: Written, m: seq<byte>, pos: nat, srcEnd: nat, goal: seq<byte>, d: seq<byte>, op: nat, limit: nat)
    requires Held(s, g, m) && s.tmpInSize == 0 && Toward(s, g, m, pos, srcEnd, goal) && Fits(s, pos, srcEnd, op, limit) && limit <= |d|
    ensures OnTheWay(s, g, g, m, pos, srcEnd, goal, d, d, op, op, limit) && pos <= srcEnd && 0 < s.maxBlockSize
  {
    hide Held, Toward, RoomFor;
    NothingSent(g, d, op);
  }

  lemma StepOn(s: Fields, g0: Written, g1: Written, g2: Written, m: seq<byte>, pos1: nat, pos2: nat, srcEnd: nat, goal: seq<byte>,
               d0: seq<byte>, d1: seq<byte>, d2: seq<byte>, op0: nat, op1: nat, op2: nat, limit: nat)
    requires OnTheWay(s, g0, g1, m, pos1, srcEnd, goal, d0, d1, op0, op1, limit)
    requires OnTheWay(s, g1, g2, m, pos2, srcEnd, goal, d1, d2, op1, op2, limit)
    ensures OnTheWay(s, g0, g2, m, pos2, srcEnd, goal, d0, d2, op0, op2, limit)
  {
    hide Held, Toward, Fits, Sent;
    SentMore(g0.sent, g1.sent, g2.sent, d0, d1, d2, op0, op1, op2);
  }

  /** One block of `n` bytes straight from the source: a full one or, with autoFlush, the
      last one. */
  method SourceBlock(stream: FastStream.Stream, hash: FastStream.Hash, mem: array<byte>, s: Fields, pos: nat, n: nat, ghost srcEnd: nat,
                     dst: array<byte>, op: nat, ghost limit: nat, ghost g0: Written, ghost g: Written, ghost goal: seq<byte>,
                     ghost d0: seq<byte>, ghost op0: nat)
    returns (op': nat, ghost g': Written)
    requires mem != dst && limit <= dst.Length && StreamOk(stream, hash, s.prefs.linked, mem[..], g.done, s.tmpIn)
    requires OnTheWay(s, g0, g, mem[..], pos, srcEnd, goal, d0, dst[..], op0, op, limit)
    requires 1 <= n && pos + n <= srcEnd && (n == s.maxBlockSize || (n < s.maxBlockSize && pos + n == srcEnd && s.prefs.autoFlush))
    modifies dst, stream, stream.hashTable
    ensures StreamOk(stream, hash, s.prefs.linked, mem[..], g'.done, s.tmpIn)
    ensures s.prefs.linked ==> BUFFER_END < stream.dictionary
    ensures OnTheWay(s, g0, g', mem[..], pos + n, srcEnd, goal, d0, dst[..], op0, op', limit)
    ensures MadeOk(hash, stream.hashTable.Length, s.prefs.level, g) ==> MadeOk(hash, stream.hashTable.Length, s.prefs.level, g')
  {
    hide *;
    ghost var m, d := mem[..], dst[..];
    SourceBlockFits(s, g0, g, m, pos, n, srcEnd, goal, d0, d, op0, op, limit);
    op', g' := MakeBlock(stream, hash, mem[..], pos, n, s.prefs, dst, op, g, s.tmpIn);
    assert mem[..] == m;
    MadeIsSent(g, g', d, dst[..], op, op');
    SourceBlockDone(s, g, g', m, pos, n, srcEnd, goal, d, dst[..], op, op', limit);
    StepOn(s, g0, g, g', m, pos, pos + n, srcEnd, goal, d0, d, dst[..], op0, op, op', limit);
  }

  lemma MadeIsSent(g: Written, g': Written, d: seq<byte>, d': seq<byte>, op: nat, op': nat)
    requires SameOutside(d, d', op, op') && Extended(g.sent, g'.sent, d', op, op')
    ensures Sent(g.sent, g'.sent, d, d', op, op')
  {
  }

  lemma SourceBlockFits(s: Fields, g0: Written, g: Written, m: seq<byte>, pos: nat, n: nat, srcEnd: nat, goal: seq<byte>,
                        d0: seq<byte>, d: seq<byte>, op0: nat, op: nat, limit: nat)
    requires OnTheWay(s, g0, g, m, pos, srcEnd, goal, d0, d, op0, op, limit)
    requires 1 <= n && pos + n <= srcEnd && (n == s.maxBlockSize || (n < s.maxBlockSize && pos + n == srcEnd && s.prefs.autoFlush))
    ensures BUFFER_END < pos && srcEnd <= |m| && n <= BlockSizeOf(s.prefs.blockSizeID) && s.tmpIn <= BUFFER_END
    ensures 4 <= s.prefs.blockSizeID <= 7 && g.info == InfoOf(s.prefs) && WrittenOk(g)
    ensures op + BHSIZE + n + Crc(s.prefs) <= limit && s.tmpInSize == 0
    ensures Held(s, g, m) && Toward(s, g, m, pos, srcEnd, goal) && Fits(s, pos, srcEnd, op, limit)
  {
    hide WrittenOk, BlockSizeOf, Sent;
  }

  lemma SourceBlockDone(s: Fields, g: Written, g': Written, m: seq<byte>, pos: nat, n: nat, srcEnd: nat, goal: seq<byte>,
                        d: seq<byte>, d': seq<byte>, op: nat, op': nat, limit: nat)
    requires Held(s, g, m) && Toward(s, g, m, pos, srcEnd, goal) && Fits(s, pos, srcEnd, op, limit) && s.tmpInSize == 0
    requires 1 <= n && pos + n <= srcEnd && (n == s.maxBlockSize || (n < s.maxBlockSize && pos + n == srcEnd && s.prefs.autoFlush))
    requires WrittenOk(g') && SameFrame(g, g') && Extended(g.done, g'.done, m, pos, pos + n)
    requires op' <= op + BHSIZE + n + Crc(s.prefs) && Sent(g.sent, g'.sent, d, d', op, op')
    ensures OnTheWay(s, g, g', m, pos + n, srcEnd, goal, d, d', op, op', limit)
  {
    hide WrittenOk, BlockSizeOf, Sent;
    NothingBuffered(s, m, g.done);
    NothingBuffered(s, m, g'.done);
    hide Buffered;
    assert m[pos..srcEnd] == m[pos..pos + n] + m[pos + n..srcEnd];
  }

  /** The full blocks of the source. */
  method FullBlocks(stream: FastStream.Stream, hash: FastStream.Hash, mem: array<byte>, s: Fields, srcAt: nat, srcEnd: nat,
                    dst: array<byte>, op0: nat, ghost limit: nat, ghost g0: Written, ghost goal: seq<byte>)
    returns (pos: nat, op: nat, ghost g: Written)
    requires mem != dst && Held(s, g0, mem[..]) && s.tmpInSize == 0 && StreamOk(stream, hash, s.prefs.linked, mem[..], g0.done, s.tmpIn)
    requires Toward(s, g0, mem[..], srcAt, srcEnd, goal) && Fits(s, srcAt, srcEnd, op0, limit) && limit <= dst.Length
    modifies dst, stream, stream.hashTable
    ensures StreamOk(stream, hash, s.prefs.linked, mem[..], g.done, s.tmpIn)
    ensures OnTheWay(s, g0, g, mem[..], pos, srcEnd, goal, old(dst[..]), dst[..], op0, op, limit)
    ensures srcAt <= pos <= srcEnd && srcEnd - pos < s.maxBlockSize && (pos != srcAt ==> (s.prefs.linked ==> BUFFER_END < stream.dictionary))
    ensures pos == srcAt ==> stream.dictionary == old(stream.dictionary) && stream.dictSize == old(stream.dictSize)
    ensures MadeOk(hash, stream.hashTable.Length, s.prefs.level, g0) ==> MadeOk(hash, stream.hashTable.Length, s.prefs.level, g)
  {
    hide *;
    ghost var m, d0 := mem[..], dst[..];
    SetOut(s, g0, m, srcAt, srcEnd, goal, d0, op0, limit);
    pos, op, g := srcAt, op0, g0;
    while srcEnd - pos >= s.maxBlockSize
      invariant srcAt <= pos <= srcEnd && mem[..] == m && StreamOk(stream, hash, s.prefs.linked, m, g.done, s.tmpIn)
      invariant OnTheWay(s, g0, g, m, pos, srcEnd, goal, d0, dst[..], op0, op, limit)
      invariant MadeOk(hash, stream.hashTable.Length, s.prefs.level, g0) ==> MadeOk(hash, stream.hashTable.Length, s.prefs.level, g)
      invariant pos != srcAt ==> (s.prefs.linked ==> BUFFER_END < stream.dictionary)
      invariant pos == srcAt ==> stream.dictionary == old(stream.dictionary) && stream.dictSize == old(stream.dictSize)
      decreases srcEnd - pos
    {
      op, g := SourceBlock(stream, hash, mem, s, pos, s.maxBlockSize, srcEnd, dst, op, limit, g0, g, goal, d0, op0);
      pos := pos + s.maxBlockSize;
    }
  }

  /** The full blocks of the source and, with autoFlush, the rest of it. */
  method SourceBlocks(stream: FastStream.Stream, hash: FastStream.Hash, mem: array<byte>, s: Fields, srcAt: nat, srcEnd: nat,
                      dst: array<byte>, op0: nat, ghost limit: nat, ghost g0: Written, ghost goal: seq<byte>)
    returns (pos: nat, op: nat, ghost g: Written)
    requires mem != dst && Held(s, g0, mem[..]) && s.tmpInSize == 0 && StreamOk(stream, hash, s.prefs.linked, mem[..], g0.done, s.tmpIn)
    requires Toward(s, g0, mem[..], srcAt, srcEnd, goal) && Fits(s, srcAt, srcEnd, op0, limit) && limit <= dst.Length
    modifies dst, stream, stream.hashTable
    ensures StreamOk(stream, hash, s.prefs.linked, mem[..], g.done, s.tmpIn)
    ensures OnTheWay(s, g0, g, mem[..], pos, srcEnd, goal, old(dst[..]), dst[..], op0, op, limit)
    ensures srcAt <= pos <= srcEnd && srcEnd - pos < s.maxBlockSize && (s.prefs.autoFlush ==> pos == srcEnd)
    ensures pos != srcAt ==> (s.prefs.linked ==> BUFFER_END < stream.dictionary)
    ensures pos == srcAt ==> stream.dictionary == old(stream.dictionary) && stream.dictSize == old(stream.dictSize)
    ensures MadeOk(hash, stream.hashTable.Length, s.prefs.level, g0) ==> MadeOk(hash, stream.hashTable.Length, s.prefs.level, g)
  {
    hide *;
    ghost var m, d0 := mem[..], dst[..];
    pos, op, g := FullBlocks(stream, hash, mem, s, srcAt, srcEnd, dst, op0, limit, g0, goal);
    assert mem[..] == m;
    if s.prefs.autoFlush && pos < srcEnd {
      op, g := SourceBlock(stream, hash, mem, s, pos, srcEnd - pos, srcEnd, dst, op, limit, g0, g, goal, d0, op0);
      pos := srcEnd;
      assert mem[..] == m;
    }
  }

  predicate SameContext(s: Fields, s': Fields) {
    s' == s.(tmpIn := s'.tmpIn, tmpInSize := s'.tmpInSize)
  }

  /** The source up to `pos`, which is all of it but less than a block. */
  method CompressSource(stream: FastStream.Stream, hash: FastStream.Hash, mem: array<byte>, s: Fields, srcAt: nat, srcEnd: nat,
                        dst: array<byte>, op: nat, ghost limit: nat, ghost g: Written, ghost goal: seq<byte>)
    returns (s': Fields, pos: nat, op': nat, last: LastBlock, ghost g': Written)
    requires mem != dst && Held(s, g, mem[..]) && RoomForBlock(s) && StreamOk(stream, hash, s.prefs.linked, mem[..], g.done, s.tmpIn)
    requires Toward(s, g, mem[..], srcAt, srcEnd, goal) && Fits(s, srcAt, srcEnd, op, limit) && limit <= dst.Length
    modifies mem, dst, stream, stream.hashTable
    ensures Held(s', g', mem[..]) && StreamOk(stream, hash, s.prefs.linked, mem[..], g'.done, s'.tmpIn)
    ensures Toward(s', g', mem[..], pos, srcEnd, goal) && SameOutside(old(mem[..]), mem[..], 0, BUFFER_END)
    ensures SameFrame(g, g') && Sent(g.sent, g'.sent, old(dst[..]), dst[..], op, op') && op' <= limit
    ensures SameContext(s, s') && srcAt <= pos <= srcEnd && srcEnd - pos < s.maxBlockSize && (s.prefs.autoFlush ==> pos == srcEnd)
    ensures s'.tmpInSize == 0 || (pos == srcEnd && last == NotDone)
    ensures last == NotDone ==>
      s'.tmpIn == s.tmpIn && stream.dictionary == old(stream.dictionary) && stream.dictSize == old(stream.dictSize)
    ensures last == FromTmpBuffer && s.prefs.linked ==> stream.dictionary + stream.dictSize == s'.tmpIn
    ensures last == FromSrcBuffer && s.prefs.linked ==> BUFFER_END < stream.dictionary
    ensures MadeOk(hash, stream.hashTable.Length, s.prefs.level, g) ==> MadeOk(hash, stream.hashTable.Length, s.prefs.level, g')
  {
    hide *;
    ghost var m, d := mem[..], dst[..];
    CallBounds(s, g, m, srcAt, srcEnd, goal, d, op, limit);
    if s.tmpInSize == 0 {
      SameAll(m, 0, BUFFER_END);
      s' := s;
      pos, op', last, g' := ContinueInSource(stream, hash, mem, s, srcAt, srcEnd, dst, op, limit, NotDone, g, goal);
    } else if s.maxBlockSize - s.tmpInSize > srcEnd - srcAt {
      s' := BufferAll(stream, hash, mem, s, srcAt, srcEnd, g, goal);
      assert dst[..] == d;
      pos, op', last, g' := srcEnd, op, NotDone, g;
      Buffering(s, s', srcAt, srcEnd);
    } else {
      var s1, pos1, op1;
      ghost var g1;
      s1, pos1, op1, g1 := CompleteBlock(stream, hash, mem, s, srcAt, srcEnd, dst, op, limit, g, goal);
      ghost var m1, d1 := mem[..], dst[..];
      AfterBlock(s, s1);
      s' := s1;
      pos, op', last, g' := ContinueInSource(stream, hash, mem, s1, pos1, srcEnd, dst, op1, limit, FromTmpBuffer, g1, goal);
      assert mem[..] == m1;
      SentMore(g.sent, g1.sent, g'.sent, d, d1, dst[..], op, op1, op');
      SameFrames(g, g1, g');
    }
  }

  /** The rest of the source, when nothing is buffered. */
  method ContinueInSource(stream: FastStream.Stream, hash: FastStream.Hash, mem: array<byte>, s: Fields, srcAt: nat, srcEnd: nat,
                          dst: array<byte>, op: nat, ghost limit: nat, before: LastBlock, ghost g: Written, ghost goal: seq<byte>)
    returns (pos: nat, op': nat, last: LastBlock, ghost g': Written)
    requires mem != dst && Held(s, g, mem[..]) && s.tmpInSize == 0 && StreamOk(stream, hash, s.prefs.linked, mem[..], g.done, s.tmpIn)
    requires Toward(s, g, mem[..], srcAt, srcEnd, goal) && Fits(s, srcAt, srcEnd, op, limit) && limit <= dst.Length
    modifies dst, stream, stream.hashTable
    ensures Held(s, g', mem[..]) && StreamOk(stream, hash, s.prefs.linked, mem[..], g'.done, s.tmpIn)
    ensures Toward(s, g', mem[..], pos, srcEnd, goal)
    ensures SameFrame(g, g') && Sent(g.sent, g'.sent, old(dst[..]), dst[..], op, op') && op' <= limit
    ensures srcAt <= pos <= srcEnd && srcEnd - pos < s.maxBlockSize && (s.prefs.autoFlush ==> pos == srcEnd)
    ensures last == if pos == srcAt then before else FromSrcBuffer
    ensures last == before != FromSrcBuffer ==> stream.dictionary == old(stream.dictionary) && stream.dictSize == old(stream.dictSize)
    ensures last == FromSrcBuffer && before != FromSrcBuffer && s.prefs.linked ==> BUFFER_END < stream.dictionary
    ensures MadeOk(hash, stream.hashTable.Length, s.prefs.level, g) ==> MadeOk(hash, stream.hashTable.Length, s.prefs.level, g')
  {
    hide *;
    pos, op', g' := SourceBlocks(stream, hash, mem, s, srcAt, srcEnd, dst, op, limit, g, goal);
    last := if pos == srcAt then before else FromSrcBuffer;
    Arrived(s, g, g', mem[..], pos, srcEnd, goal, old(dst[..]), dst[..], op, op', limit);
  }

  lemma Arrived(s: Fields, g0: Written, g: Written, m: seq<byte>, pos: nat, srcEnd: nat, goal: seq<byte>,
                d0: seq<byte>, d: seq<byte>, op0: nat, op: nat, limit: nat)
    requires OnTheWay(s, g0, g, m, pos, srcEnd, goal, d0, d, op0, op, limit)
    ensures Held(s, g, m) && Toward(s, g, m, pos, srcEnd, goal) && SameFrame(g0, g) && Sent(g0.sent, g.sent, d0, d, op0, op) && op <= limit
  {
    hide Held, Toward, Sent, RoomFor;
  }

  lemma CallBounds(s: Fields, g: Written, m: seq<byte>, srcAt: nat, srcEnd: nat, goal: seq<byte>, d: seq<byte>, op: nat, limit: nat)
    requires Held(s, g, m) && Toward(s, g, m, srcAt, srcEnd, goal) && Fits(s, srcAt, srcEnd, op, limit) && limit <= |d|
    ensures srcAt <= srcEnd && op <= limit && (s.tmpInSize != 0 ==> !s.prefs.autoFlush) && 0 < s.maxBlockSize
    ensures Sent(g.sent, g.sent, d, d, op, op) && SameFrame(g, g) && SameContext(s, s)
  {
    hide WrittenOk, BlockSizeOf, Sent, RoomFor;
    NothingSent(g, d, op);
  }

  lemma SameAll(m: seq<byte>, lo: nat, hi: nat)
    ensures SameOutside(m, m, lo, hi)
  {
  }

  lemma Buffering(s: Fields, s': Fields, srcAt: nat, srcEnd: nat)
    requires srcAt <= srcEnd && s' == s.(tmpInSize := s.tmpInSize + (srcEnd - srcAt))
    ensures SameContext(s, s') && s'.tmpIn == s.tmpIn
  {
  }

  lemma AfterBlock(s: Fields, s': Fields)
    requires Completed(s, s.maxBlockSize, s')
    ensures SameContext(s, s') && s'.tmpInSize == 0 && s'.prefs == s.prefs && s'.maxBlockSize == s.maxBlockSize
  {
  }

  lemma SameFrames(g: Written, g': Written, g'': Written)
    requires SameFrame(g, g') && SameFrame(g', g'')
    ensures SameFrame(g, g'')
  {
  }

  /** The history does not depend on the caller's memory. */
  predicate Own(dictionary: nat, dictSize: nat, tmpIn: nat) {
    dictSize == 0 || dictionary + dictSize <= tmpIn
  }

  /** Preserves the history within the buffer whenever necessary, and keeps `tmpIn` within
      its limits. */
  method KeepHistory(stream: FastStream.Stream, hash: FastStream.Hash, mem: array<byte>, s: Fields, last: LastBlock, stableSrc: bool,
                     ghost pos: nat, ghost srcEnd: nat, ghost g: Written, ghost goal: seq<byte>)
    returns (s': Fields)
    requires Held(s, g, mem[..]) && StreamOk(stream, hash, s.prefs.linked, mem[..], g.done, s.tmpIn)
    requires Toward(s, g, mem[..], pos, srcEnd, goal)
    requires if last == NotDone then RoomForBlock(s) else s.tmpInSize == 0
    requires last == FromSrcBuffer && s.prefs.linked ==> BUFFER_END < stream.dictionary
    modifies stream, mem
    ensures s' == s.(tmpIn := s'.tmpIn) && Held(s', g, mem[..]) && RoomForBlock(s')
    ensures StreamOk(stream, hash, s.prefs.linked, mem[..], g.done, s'.tmpIn)
    ensures Toward(s', g, mem[..], pos, srcEnd, goal) && SameOutside(old(mem[..]), mem[..], 0, BUFFER_END)
    ensures s.prefs.linked && (last == FromSrcBuffer ==> !stableSrc)
            && (last == NotDone ==> old(Own(stream.dictionary, stream.dictSize, s.tmpIn)))
            && (last == FromTmpBuffer ==> old(stream.dictionary + stream.dictSize) == s.tmpIn)
            ==> Own(stream.dictionary, stream.dictSize, s'.tmpIn)
  {
    hide *;
    ghost var m := mem[..];
    HeldBounds(s, g, m);
    SameAll(m, 0, BUFFER_END);
    s' := s;
    if s.prefs.linked && last == FromSrcBuffer {
      if stableSrc {
        s' := s.(tmpIn := 0);
        StreamElsewhere(stream, hash, m, g.done, s.tmpIn, 0);
        TmpInMoves(s, s', g, m, m, pos, srcEnd, goal);
      } else {
        s' := SaveInBuffer(stream, hash, mem, s, pos, srcEnd, g, goal);
      }
    } else {
      OwnHistory(stream.dictionary, stream.dictSize, s.tmpIn);
      if !s.prefs.autoFlush && s.tmpIn + s.maxBlockSize > s.maxBufferSize {
        TooFar(s, g, m);
        s' := SaveInBuffer(stream, hash, mem, s, pos, srcEnd, g, goal);
      } else {
        EnoughRoom(s);
      }
    }
  }

  method SaveInBuffer(stream: FastStream.Stream, hash: FastStream.Hash, mem: array<byte>, s: Fields,
                      ghost pos: nat, ghost srcEnd: nat, ghost g: Written, ghost goal: seq<byte>)
    returns (s': Fields)
    requires Held(s, g, mem[..]) && s.prefs.linked && s.tmpInSize == 0 && StreamOk(stream, hash, true, mem[..], g.done, s.tmpIn)
    requires Toward(s, g, mem[..], pos, srcEnd, goal)
    modifies stream, mem
    ensures s' == s.(tmpIn := s'.tmpIn) && Held(s', g, mem[..]) && RoomForBlock(s')
    ensures StreamOk(stream, hash, true, mem[..], g.done, s'.tmpIn) && Own(stream.dictionary, stream.dictSize, s'.tmpIn)
    ensures Toward(s', g, mem[..], pos, srcEnd, goal) && SameOutside(old(mem[..]), mem[..], 0, BUFFER_END)
  {
    hide *;
    ghost var m := mem[..];
    HeldBounds(s, g, m);
    s' := SaveHistory(stream, hash, mem, s, g.done);
    InBuffer(m, mem[..], 0, KB64);
    OwnHistory(stream.dictionary, stream.dictSize, s'.tmpIn);
    TmpInMoves(s, s', g, m, mem[..], pos, srcEnd, goal);
  }

  lemma OwnHistory(dictionary: nat, dictSize: nat, tmpIn: nat)
    ensures dictionary + dictSize == tmpIn ==> Own(dictionary, dictSize, tmpIn)
  {
  }

  /** Only linked blocks move `tmpIn`. */
  lemma TooFar(s: Fields, g: Written, m: seq<byte>)
    requires Held(s, g, m) && !s.prefs.autoFlush && s.tmpIn + s.maxBlockSize > s.maxBufferSize
    ensures s.prefs.linked && !RoomForBlock(s)
  {
  }

  lemma EnoughRoom(s: Fields)
    requires s.prefs.autoFlush || s.tmpIn + s.maxBlockSize <= s.maxBufferSize
    ensures RoomForBlock(s)
  {
  }

  /** Nothing is buffered: `tmpIn` may lie anywhere near the front of the buffer. */
  lemma TmpInMoves(s: Fields, s': Fields, g: Written, m: seq<byte>, m': seq<byte>, pos: nat, srcEnd: nat, goal: seq<byte>)
    requires Held(s, g, m) && s.tmpInSize == 0 && s.prefs.linked && Toward(s, g, m, pos, srcEnd, goal)
    requires s' == s.(tmpIn := s'.tmpIn) && s'.tmpIn <= KB64 && SameOutside(m, m', 0, BUFFER_END)
    ensures Held(s', g, m') && RoomForBlock(s') && Toward(s', g, m', pos, srcEnd, goal)
  {
    hide WrittenOk, BlockSizeOf;
    SliceOutside(m, m', 0, BUFFER_END, pos, srcEnd);
    NothingBuffered(s, m, g.done);
    NothingBuffered(s', m', g.done);
    hide Buffered;
  }

  lemma StreamElsewhere(stream: FastStream.Stream, hash: FastStream.Hash, m: seq<byte>, done: seq<byte>, tmpIn: nat, tmpIn': nat)
    requires StreamOk(stream, hash, true, m, done, tmpIn) && BUFFER_END < stream.dictionary
    ensures StreamOk(stream, hash, true, m, done, tmpIn')
  {
    hide FastStream.Stream.Valid, HistAt;
  }

  /** All of the source is compressed or buffered. */
  method Consume(stream: FastStream.Stream, hash: FastStream.Hash, mem: array<byte>, s: Fields, srcAt: nat, srcEnd: nat,
                 dst: array<byte>, op: nat, ghost limit: nat, stableSrc: bool, ghost g: Written, ghost goal: seq<byte>)
    returns (s': Fields, op': nat, ghost g': Written)
    requires mem != dst && Held(s, g, mem[..]) && RoomForBlock(s) && StreamOk(stream, hash, s.prefs.linked, mem[..], g.done, s.tmpIn)
    requires Toward(s, g, mem[..], srcAt, srcEnd, goal) && Fits(s, srcAt, srcEnd, op, limit) && limit <= dst.Length
    modifies mem, dst, stream, stream.hashTable
    ensures SameContext(s, s') && Held(s', g', mem[..]) && RoomForBlock(s')
    ensures StreamOk(stream, hash, s.prefs.linked, mem[..], g'.done, s'.tmpIn) && Toward(s', g', mem[..], srcEnd, srcEnd, goal)
    ensures SameFrame(g, g') && Sent(g.sent, g'.sent, old(dst[..]), dst[..], op, op') && op' <= limit
    ensures SameOutside(old(mem[..]), mem[..], 0, BUFFER_END)
    ensures s.prefs.linked && !stableSrc && old(Own(stream.dictionary, stream.dictSize, s.tmpIn)) ==>
      Own(stream.dictionary, stream.dictSize, s'.tmpIn)
    ensures MadeOk(hash, stream.hashTable.Length, s.prefs.level, g) ==> MadeOk(hash, stream.hashTable.Length, s.prefs.level, g')
  {
    hide *;
    ghost var m := mem[..];
    var pos, last;
    var s1, s2;
    s1, pos, op', last, g' := CompressSource(stream, hash, mem, s, srcAt, srcEnd, dst, op, limit, g, goal);
    ghost var m1, d1 := mem[..], dst[..];
    ContextFields(s, s1);
    if last == NotDone { SameRoom(s, s1); }
    s2 := KeepHistory(stream, hash, mem, s1, last, stableSrc, pos, srcEnd, g', goal);
    ghost var m2 := mem[..];
    OutsideTwice(m, m1, m2);
    ContextFields(s, s2);
    s' := s2;
    if pos < srcEnd {
      s' := BufferAll(stream, hash, mem, s2, pos, srcEnd, g', goal);
      OutsideTwice(m, m2, mem[..]);
    }
    assert dst[..] == d1;
    ContextFields(s, s');
  }

  lemma OutsideTwice(m: seq<byte>, m': seq<byte>, m'': seq<byte>)
    requires SameOutside(m, m', 0, BUFFER_END) && SameOutside(m', m'', 0, BUFFER_END)
    ensures SameOutside(m, m'', 0, BUFFER_END)
  {
  }

  lemma SameRoom(s: Fields, s': Fields)
    requires RoomForBlock(s) && SameContext(s, s') && s'.tmpIn == s.tmpIn
    ensures RoomForBlock(s')
  {
  }

  lemma ContextFields(s: Fields, s': Fields)
    ensures SameContext(s, s') <==>
      && s'.open == s.open && s'.prefs == s.prefs && s'.maxBlockSize == s.maxBlockSize && s'.maxBufferSize == s.maxBufferSize
      && s'.totalInSize == s.totalInSize
  {
  }

  // ----- LZ4F_flush -----

  /** All that is buffered is compressed. */
  method FlushBuffer(stream: FastStream.Stream, hash: FastStream.Hash, mem: array<byte>, s: Fields, dst: array<byte>, op: nat, ghost g: Written)
    returns (s': Fields, op': nat, ghost g': Written)
    requires mem != dst && Held(s, g, mem[..]) && RoomForBlock(s) && StreamOk(stream, hash, s.prefs.linked, mem[..], g.done, s.tmpIn)
    requires 0 < s.tmpInSize && BUFFER_END < mem.Length && op + BHSIZE + s.tmpInSize + Crc(s.prefs) <= dst.Length
    modifies mem, dst, stream, stream.hashTable
    ensures SameContext(s, s') && s'.tmpInSize == 0 && Held(s', g', mem[..]) && RoomForBlock(s')
    ensures StreamOk(stream, hash, s.prefs.linked, mem[..], g'.done, s'.tmpIn)
    ensures Extended(g.done, g'.done, old(mem[..]), s.tmpIn, s.tmpIn + s.tmpInSize)
    ensures SameFrame(g, g') && Sent(g.sent, g'.sent, old(dst[..]), dst[..], op, op')
    ensures op' <= op + BHSIZE + s.tmpInSize + Crc(s.prefs) && SameOutside(old(mem[..]), mem[..], 0, BUFFER_END)
    ensures s.prefs.linked ==> Own(stream.dictionary, stream.dictSize, s'.tmpIn)
    ensures MadeOk(hash, stream.hashTable.Length, s.prefs.level, g) ==> MadeOk(hash, stream.hashTable.Length, s.prefs.level, g')
  {
    hide *;
    var m := mem[..];
    HeldBounds(s, g, m);
    var s1;
    op', s1, g' := CompressBuffered(stream, hash, m, s, s.tmpInSize, dst, op, g);
    assert mem[..] == m;
    ghost var d1 := dst[..];
    HeldFlushed(s, s1, g, g', m);
    ContextFields(s, s1);
    s' := KeepHistory(stream, hash, mem, s1, FromTmpBuffer, false, BUFFER_END + 1, BUFFER_END + 1, g', g'.done);
    assert dst[..] == d1;
    ContextFields(s, s');
  }

  lemma HeldFlushed(s: Fields, s': Fields, g: Written, g': Written, m: seq<byte>)
    requires Held(s, g, m) && RoomForBlock(s) && Completed(s, s.tmpInSize, s') && WrittenOk(g') && SameFrame(g, g') && BUFFER_END < |m|
    ensures Held(s', g', m) && Toward(s', g', m, BUFFER_END + 1, BUFFER_END + 1, g'.done) && s'.tmpInSize == 0 && SameContext(s, s')
  {
    hide WrittenOk, BlockSizeOf;
    NothingBuffered(s', m, g'.done);
    assert m[BUFFER_END + 1..BUFFER_END + 1] == [];
    assert g'.done + [] == g'.done;
  }
}
