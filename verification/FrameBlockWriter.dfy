/** LZ4F_makeBlock: one block of a frame, compressed as the continuation of a stream or on
    its own, or stored as it is.  Levels below LZ4HC_CLEVEL_MIN.

    All addresses are offsets in one memory: the internal buffer of the context lies in
    its first `BUFFER_END` bytes, the caller's sources behind them.
 */
module FrameBlockWriter {
  import opened Basics
  import opened BlockFormat
  import opened DecoderSpec
  import opened SourceParse
  import opened FrameBuffers
  import opened FrameFormat
  import opened FrameHistory
  import opened FrameBounds
  import FrameDict
  import FastStream
  import FastTrace
  import BlockApi
  import Xxh32

  const BUFFER_END: nat := 0x40_0000 + FrameDict.KB128

  /** The frame header that stands for the preferences. */
  function InfoOf(p: Prefs): Info {
    Info(p.linked, p.blockChecksum, p.contentChecksum, if p.contentSize != 0 then Some(p.contentSize) else None,
         if p.dictID != 0 then Some(p.dictID) else None, p.blockSizeID)
  }

  /** The frame so far: its blocks, their content, all input and all bytes written. */
  datatype Written = Written(info: Info, blocks: seq<FrameBlock>, done: seq<byte>, input: seq<byte>, sent: seq<byte>)

  ghost predicate WrittenOk(g: Written) {
    && InfoOk(g.info) && BlocksOk(g.info, [], g.blocks) && BlocksOutput(g.info, [], g.blocks) == g.done
    && g.sent == EncodeHeader(g.info) + EncodeBlocks(g.info, g.blocks)
  }

  predicate SameFrame(g: Written, g': Written) {
    g'.info == g.info && g'.input == g.input
  }

  /** `s'` goes on with the bytes `m[lo..hi]`. */
  predicate Extended(s: seq<byte>, s': seq<byte>, m: seq<byte>, lo: nat, hi: nat) {
    lo <= hi <= |m| && s' == s + m[lo..hi]
  }

  /** The history of the stream is the end of what is compressed. */
  predicate HistAt(dictionary: nat, dictSize: nat, m: seq<byte>, done: seq<byte>) {
    && dictionary + dictSize <= |m| && dictSize <= |done|
    && m[dictionary..dictionary + dictSize] == Last(done, dictSize)
  }

  /** The history is not where new input will be buffered. */
  predicate Clear(dictionary: nat, dictSize: nat, tmpIn: nat) {
    dictSize == 0 || dictionary + dictSize <= tmpIn || BUFFER_END < dictionary
  }

  ghost predicate StreamOk(stream: FastStream.Stream, hash: FastStream.Hash, linked: bool, m: seq<byte>, done: seq<byte>, tmpIn: nat)
    reads stream, stream.hashTable
  {
    && stream.Ready(linked) && FastStream.HashOk(hash, stream.hashTable.Length)
    && (linked ==> HistAt(stream.dictionary, stream.dictSize, m, done) && Clear(stream.dictionary, stream.dictSize, tmpIn))
  }

  // ----- Compression of one block -----

  function Acceleration(level: int): nat {
    if level < 0 then -level + 1 else 1
  }

  /** What is tried for the input `x` behind `hist`: a block that the compressor's scan finds
      behind some final part of it.  Its bytes are `bytes`; or there are none, and |x| - 1
      bytes do not hold it. */
  ghost predicate Tried(hash: FastStream.Hash, size: nat, level: int, hist: seq<byte>, x: seq<byte>, bytes: seq<byte>) {
    exists reach: nat, b: Block :: reach <= |hist| && TriedWith(hash, size, level, Last(hist, reach) + x, reach, b, bytes)
  }

  ghost predicate TriedWith(hash: FastStream.Hash, size: nat, level: int, window: seq<byte>, reach: nat, b: Block, bytes: seq<byte>) {
    && reach < |window|
    && var acc := FastTrace.AccelerationOf(Acceleration(level));
       if bytes == [] then FastStream.NoRoomFor(hash, size, acc, window, reach, b, |window| - reach - 1)
       else AllEncodable(b.sequences) && bytes == EncodeBlock(b) && FastStream.ScannedBlock(hash, size, acc, window, reach, b)
  }

  /** A block is stored only if what was tried for it has no room. */
  ghost predicate BlockMade(hash: FastStream.Hash, size: nat, level: int, hist: seq<byte>, fb: FrameBlock) {
    Tried(hash, size, level, hist, BlockContent(fb, hist), if fb.Raw? then [] else fb.bytes)
  }

  ghost predicate AllMade(hash: FastStream.Hash, size: nat, level: int, info: Info, fbs: seq<FrameBlock>) {
    fbs == [] ||
    (&& AllMade(hash, size, level, info, fbs[..|fbs| - 1])
     && BlockMade(hash, size, level, History(info, BlocksOutput(info, [], fbs[..|fbs| - 1])), fbs[|fbs| - 1]))
  }

  /** All blocks so far. */
  ghost predicate MadeOk(hash: FastStream.Hash, size: nat, level: int, g: Written) {
    AllMade(hash, size, level, g.info, g.blocks)
  }

  lemma OneMoreMade(hash: FastStream.Hash, size: nat, level: int, g: Written, fb: FrameBlock)
    requires WrittenOk(g) && BlockMade(hash, size, level, History(g.info, g.done), fb)
    ensures AllMade(hash, size, level, g.info, g.blocks) ==> AllMade(hash, size, level, g.info, g.blocks + [fb])
  {
    hide BlockMade, EncodeHeader, EncodeBlocks, BlocksOk;
    var blocks := g.blocks + [fb];
    assert blocks[..|blocks| - 1] == g.blocks;
  }

  lemma TriedBehind(hash: FastStream.Hash, size: nat, level: int, hist: seq<byte>, x: seq<byte>, reach: nat, b: Block, bytes: seq<byte>)
    requires reach <= |hist| && TriedWith(hash, size, level, Last(hist, reach) + x, reach, b, bytes)
    ensures Tried(hash, size, level, hist, x, bytes)
  {
    hide TriedWith, Last;
  }

  /** Any history that ends with the one used will do. */
  lemma LongerHistory(bytes: seq<byte>, hist: seq<byte>, done: seq<byte>)
    requires Decodable(bytes, hist) && |hist| <= |done| && hist == Last(done, |hist|)
    ensures Decodable(bytes, done) && BlockContent(Packed(bytes), done) == BlockContent(Packed(bytes), hist)
  {
    assert Covers(done, hist) by {
      var n := Min(KB64, |hist|);
      assert Last(done, n) == Last(hist, n);
    }
    hide Covers, Decodable, BlockContent;
    DecodableCovers(bytes, done, hist);
  }

  lemma ContentOfBlock(window: seq<byte>, histSize: nat, n: nat, bytes: seq<byte>, b: Block, x: seq<byte>)
    requires IsBlockOf(window, histSize, n, bytes, b) && x == window[histSize..histSize + n]
    ensures Decodable(bytes, window[..histSize]) && BlockContent(Packed(bytes), window[..histSize]) == x
  {
    BlockApi.BlockDecodes(window, histSize, n, bytes, b);
  }

  lemma LinkedDecodes(m: seq<byte>, hist: nat, histSize: nat, source: nat, n: nat, bytes: seq<byte>, b: Block, done: seq<byte>)
    requires hist + histSize <= |m| && source + n <= |m| && IsBlockOf(FastStream.Window(m, hist, histSize, source, n), histSize, n, bytes, b)
    requires histSize <= |done| && m[hist..hist + histSize] == Last(done, histSize)
    ensures Decodable(bytes, done) && BlockContent(Packed(bytes), done) == m[source..source + n]
  {
    var window := FastStream.Window(m, hist, histSize, source, n);
    assert window[..histSize] == m[hist..hist + histSize] && window[histSize..histSize + n] == m[source..source + n];
    hide IsBlockOf, Decodable, BlockContent, FastStream.Window, Last;
    ContentOfBlock(window, histSize, n, bytes, b, m[source..source + n]);
    LongerHistory(bytes, window[..histSize], done);
  }

  /** A part of the history in front of its end. */
  lemma HistSuffix(m: seq<byte>, dictionary: nat, dictSize: nat, done: seq<byte>, hist: nat, histSize: nat)
    requires HistAt(dictionary, dictSize, m, done) && histSize <= dictSize && hist + histSize <= |m|
    requires histSize != 0 ==> hist + histSize == dictionary + dictSize
    ensures m[hist..hist + histSize] == Last(done, histSize)
  {
    if histSize != 0 {
      assert m[hist..hist + histSize] == Last(m[dictionary..dictionary + dictSize], histSize);
      assert Last(done, histSize) == Last(Last(done, dictSize), histSize);
    }
  }

  lemma HistGrows(m: seq<byte>, hist: nat, histSize: nat, source: nat, n: nat, done: seq<byte>, dictSize: nat)
    requires hist + histSize <= |m| && source + n <= |m| && histSize <= |done| && m[hist..hist + histSize] == Last(done, histSize)
    requires dictSize == if histSize != 0 && hist + histSize == source then histSize + n else n
    ensures dictSize <= source + n && HistAt(source + n - dictSize, dictSize, m, done + m[source..source + n])
  {
    var x := m[source..source + n];
    if dictSize == n {
      assert Last(done + x, n) == x;
    } else {
      assert m[hist..source + n] == m[hist..source] + x;
      assert Last(done + x, histSize + n) == Last(done, histSize) + x;
    }
  }

  /** LZ4F_compressBlock_continue. */
  method CompressContinue(stream: FastStream.Stream, hash: FastStream.Hash, m: seq<byte>, source: nat, n: nat, level: int, ghost done: seq<byte>)
    returns (bytes: seq<byte>)
    requires stream.Ready(true) && FastStream.HashOk(hash, stream.hashTable.Length)
    requires HistAt(stream.dictionary, stream.dictSize, m, done) && source + n <= |m| && 1 <= n <= 0x40_0000
    modifies stream, stream.hashTable
    ensures stream.Ready(true) && HistAt(stream.dictionary, stream.dictSize, m, done + m[source..source + n])
    ensures stream.dictionary + stream.dictSize == source + n && n <= stream.dictSize
    ensures || stream.dictionary == source
            || (old(stream.dictSize) != 0 && old(stream.dictionary + stream.dictSize) == source && old(stream.dictionary) <= stream.dictionary)
    ensures bytes != [] ==> |bytes| < n && Decodable(bytes, done) && BlockContent(Packed(bytes), done) == m[source..source + n]
    ensures Tried(hash, stream.hashTable.Length, level, done, m[source..source + n], bytes)
  {
    hide IsBlockOf, Decodable, BlockContent, FastStream.Window, FastStream.Stream.Valid, Last, Tried, TriedWith,
         FastStream.NoRoomFor, FastStream.ScannedBlock;
    var dst := new byte[n - 1];
    ghost var dictionary, dictSize := stream.dictionary, stream.dictSize;
    ghost var b, hist, histSize;
    var r;
    HistInMemory(dictionary, dictSize, m, done);
    r, b, hist, histSize := stream.CompressFastContinue(m, source, n, dst, hash, Acceleration(level));
    bytes := dst[..r];
    if 0 < r {
      HistSuffix(m, dictionary, dictSize, done, hist, histSize);
      LinkedDecodes(m, hist, histSize, source, n, bytes, b, done);
    }
    ghost var h := if histSize == 0 then 0 else hist;
    HistSuffix(m, dictionary, dictSize, done, h, histSize);
    WindowIs(m, hist, h, histSize, source, n, done);
    ghost var window := FastStream.Window(m, hist, histSize, source, n);
    if 0 < r { TriedBytes(window, histSize, n, bytes, b); }
    TriedIs(hash, stream.hashTable.Length, level, window, histSize, n, b, bytes);
    TriedBehind(hash, stream.hashTable.Length, level, done, m[source..source + n], histSize, b, bytes);
    HistGrows(m, h, histSize, source, n, done, stream.dictSize);
  }

  lemma WindowIs(m: seq<byte>, hist: nat, h: nat, histSize: nat, source: nat, n: nat, done: seq<byte>)
    requires hist + histSize <= |m| && h + histSize <= |m| && source + n <= |m| && histSize <= |done|
    requires m[h..h + histSize] == Last(done, histSize) && (histSize != 0 ==> h == hist)
    ensures FastStream.Window(m, hist, histSize, source, n) == Last(done, histSize) + m[source..source + n]
  {
    if histSize == 0 {
      assert m[hist..hist] == m[h..h];
    }
  }

  lemma TriedBytes(window: seq<byte>, reach: nat, n: nat, bytes: seq<byte>, b: Block)
    requires IsBlockOf(window, reach, n, bytes, b)
    ensures bytes != [] && AllEncodable(b.sequences) && bytes == EncodeBlock(b)
  {
  }

  lemma TriedIs(hash: FastStream.Hash, size: nat, level: int, window: seq<byte>, reach: nat, n: nat, b: Block, bytes: seq<byte>)
    requires |window| == reach + n && 1 <= n
    requires var acc := FastTrace.AccelerationOf(Acceleration(level));
             if bytes == [] then FastStream.NoRoomFor(hash, size, acc, window, reach, b, n - 1)
             else AllEncodable(b.sequences) && bytes == EncodeBlock(b) && FastStream.ScannedBlock(hash, size, acc, window, reach, b)
    ensures TriedWith(hash, size, level, window, reach, b, bytes)
  {
    hide FastStream.NoRoomFor, FastStream.ScannedBlock, EncodeBlock;
  }

  lemma HistInMemory(dictionary: nat, dictSize: nat, m: seq<byte>, done: seq<byte>)
    requires HistAt(dictionary, dictSize, m, done)
    ensures dictionary + dictSize <= |m| && dictSize <= |done|
  {
  }

  /** LZ4F_compressBlock. */
  method CompressAlone(stream: FastStream.Stream, hash: FastStream.Hash, m: seq<byte>, source: nat, n: nat, level: int)
    returns (bytes: seq<byte>)
    requires stream.Ready(false) && FastStream.HashOk(hash, stream.hashTable.Length)
    requires source + n <= |m| && 1 <= n <= 0x40_0000
    modifies stream, stream.hashTable
    ensures stream.Ready(false)
    ensures bytes != [] ==> |bytes| < n && Decodable(bytes, []) && BlockContent(Packed(bytes), []) == m[source..source + n]
    ensures Tried(hash, stream.hashTable.Length, level, [], m[source..source + n], bytes)
  {
    hide IsBlockOf, Decodable, BlockContent, FastStream.Stream.Valid, Tried, TriedWith, FastStream.NoRoomFor, FastStream.ScannedBlock;
    var dst := new byte[n - 1];
    var r;
    ghost var b;
    r, b := stream.CompressFastReset(m, source, n, dst, hash, Acceleration(level));
    bytes := dst[..r];
    if 0 < r {
      ContentOfBlock(m[source..source + n], 0, n, bytes, b, m[source..source + n]);
      TriedBytes(m[source..source + n], 0, n, bytes, b);
      assert m[source..source + n][..0] == [];
    }
    TriedIs(hash, stream.hashTable.Length, level, m[source..source + n], 0, n, b, bytes);
    assert Last([], 0) + m[source..source + n] == m[source..source + n];
    TriedBehind(hash, stream.hashTable.Length, level, [], m[source..source + n], 0, b, bytes);
  }

  // ----- A block in the frame -----

  /** One more block. */
  lemma AddBlock(g: Written, fb: FrameBlock, x: seq<byte>, bytes: seq<byte>)
    requires WrittenOk(g) && BlockOk(g.info, History(g.info, g.done), fb) && BlockContent(fb, History(g.info, g.done)) == x
    requires bytes == EncodeFrameBlock(g.info, fb)
    ensures WrittenOk(g.(blocks := g.blocks + [fb], done := g.done + x, sent := g.sent + bytes))
  {
    hide BlockOk, BlockContent, EncodeFrameBlock, EncodeHeader;
    var blocks := g.blocks + [fb];
    assert blocks[..|blocks| - 1] == g.blocks;
    Associative(EncodeHeader(g.info), EncodeBlocks(g.info, g.blocks), bytes);
  }

  lemma Associative(a: seq<byte>, b: seq<byte>, c: seq<byte>)
    ensures a + b + c == a + (b + c)
  {
  }

  /** The header, the bytes and the checksum of a block. */
  method WriteBlock(dst: array<byte>, op: nat, fb: FrameBlock, info: Info) returns (op': nat)
    requires op + BHSIZE + |fb.bytes| + (if info.blockChecksum then BFSIZE else 0) <= dst.Length
    modifies dst
    ensures op <= op' <= dst.Length && op' == op + BHSIZE + |fb.bytes| + if info.blockChecksum then BFSIZE else 0
    ensures dst[..][op..op'] == EncodeFrameBlock(info, fb) && SameOutside(old(dst[..]), dst[..], op, op')
  {
    hide SameOutside, WriteLE, Xxh32.Hash;
    ghost var d := dst[..];
    WriteOut(dst, op, WriteLE(BlockHeader(fb), 4));
    ghost var d1 := dst[..];
    WriteOut(dst, op + 4, fb.bytes);
    ghost var d2 := dst[..];
    op' := op + 4 + |fb.bytes|;
    Wrote(d, d1, d2, op, op + 4, op');
    if info.blockChecksum {
      var crc32 := Xxh32.OneShot(fb.bytes, 0);
      WriteOut(dst, op', WriteLE(crc32, 4));
      Wrote(d, d2, dst[..], op, op', op' + 4);
      op' := op' + 4;
    }
  }

  /** Two writes side by side. */
  lemma Wrote(d: seq<byte>, d1: seq<byte>, d2: seq<byte>, lo: nat, mid: nat, hi: nat)
    requires lo <= mid <= hi <= |d| && SameOutside(d, d1, lo, mid) && SameOutside(d1, d2, mid, hi)
    ensures SameOutside(d, d2, lo, hi) && d2[lo..hi] == d1[lo..mid] + d2[mid..hi]
  {
    assert d2[lo..mid] == d1[lo..mid];
  }

  /** LZ4F_makeBlock for the `n` bytes at `source`, which are either buffered at `tmpIn`
      or in the caller's memory. */
  method MakeBlock(stream: FastStream.Stream, hash: FastStream.Hash, m: seq<byte>, source: nat, n: nat, p: Prefs,
                   dst: array<byte>, op: nat, ghost g: Written, ghost tmpIn: nat)
    returns (op': nat, ghost g': Written)
    requires 4 <= p.blockSizeID <= 7 && g.info == InfoOf(p) && WrittenOk(g)
    requires StreamOk(stream, hash, p.linked, m, g.done, tmpIn)
    requires source + n <= |m| && 1 <= n <= BlockSizeOf(p.blockSizeID) && (source == tmpIn || BUFFER_END < source) && tmpIn <= BUFFER_END
    requires op + BHSIZE + n + Crc(p) <= dst.Length
    modifies stream, stream.hashTable, dst
    ensures op <= op' <= op + BHSIZE + n + Crc(p) && SameOutside(old(dst[..]), dst[..], op, op')
    ensures |g'.blocks| == |g.blocks| + 1 && g'.blocks[..|g.blocks|] == g.blocks
    ensures var fb := g'.blocks[|g.blocks|];
            && BlockMade(hash, stream.hashTable.Length, p.level, History(g.info, g.done), fb)
            && op' == op + BHSIZE + |fb.bytes| + Crc(p) && (|fb.bytes| == n <==> fb.Raw?)
    ensures MadeOk(hash, stream.hashTable.Length, p.level, g) ==> MadeOk(hash, stream.hashTable.Length, p.level, g')
    ensures WrittenOk(g') && SameFrame(g, g')
    ensures Extended(g.done, g'.done, m, source, source + n) && Extended(g.sent, g'.sent, dst[..], op, op')
    ensures StreamOk(stream, hash, p.linked, m, g'.done, if source == tmpIn && p.linked then tmpIn + n else tmpIn)
    ensures p.linked ==> stream.dictionary + stream.dictSize == source + n && (BUFFER_END < source ==> BUFFER_END < stream.dictionary)
  {
    hide WrittenOk, Decodable, BlockOk, BlockContent, EncodeFrameBlock, SameOutside, FastStream.Stream.Valid, HistAt,
         Tried, BlockMade, AllMade;
    ghost var x := m[source..source + n];
    var bytes;
    if p.linked {
      bytes := CompressContinue(stream, hash, m, source, n, p.level, g.done);
    } else {
      bytes := CompressAlone(stream, hash, m, source, n, p.level);
    }
    var fb := if bytes == [] then Raw(m[source..source + n]) else Packed(bytes);
    InfoIsWritten(g);
    BlockStands(g, fb, x);
    TriedMakes(hash, stream.hashTable.Length, p.level, History(g.info, g.done), fb, x, bytes);
    OneMoreMade(hash, stream.hashTable.Length, p.level, g, fb);
    op' := WriteBlock(dst, op, fb, InfoOf(p));
    AddBlock(g, fb, x, dst[..][op..op']);
    g' := g.(blocks := g.blocks + [fb], done := g.done + x, sent := g.sent + dst[..][op..op']);
  }

  lemma TriedMakes(hash: FastStream.Hash, size: nat, level: int, hist: seq<byte>, fb: FrameBlock, x: seq<byte>, bytes: seq<byte>)
    requires Tried(hash, size, level, hist, x, bytes) && BlockContent(fb, hist) == x
    requires fb == if bytes == [] then Raw(x) else Packed(bytes)
    ensures BlockMade(hash, size, level, hist, fb)
  {
    hide Tried, BlockContent;
  }

  lemma InfoIsWritten(g: Written)
    requires WrittenOk(g)
    ensures InfoOk(g.info)
  {
  }

  lemma BlockStands(g: Written, fb: FrameBlock, x: seq<byte>)
    requires InfoOk(g.info) && |x| <= BlockSizeOf(g.info.blockSizeID)
    requires fb == Raw(x) || (fb.Packed? && |fb.bytes| < |x| && Decodable(fb.bytes, History(g.info, g.done))
                              && BlockContent(fb, History(g.info, g.done)) == x)
    ensures BlockOk(g.info, History(g.info, g.done), fb) && BlockContent(fb, History(g.info, g.done)) == x
  {
  }
}
