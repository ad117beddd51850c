/** The LZ4 frame format: a header, blocks, an end mark and an optional checksum.

    `FrameOk` says which frames are well formed and `FrameContent` what they stand for;
    `EncodeFrame` gives their bytes.  Skippable frames are not part of this model.
 */
module FrameFormat {
  import opened Basics
  import opened BlockFormat
  import opened DecoderSpec
  import opened SourceParse
  import Xxh32
  import HashValues

  const MAGICNUMBER: nat := 0x184D2204
  const BLOCKUNCOMPRESSED_FLAG: nat := 0x8000_0000
  const HEADER_SIZE_MIN: nat := 7
  const HEADER_SIZE_MAX: nat := 19
  const BHSIZE: nat := 4
  const BFSIZE: nat := 4

  // ----- Little-endian numbers -----

  function WriteLE(n: nat, k: nat): (r: seq<byte>)
    ensures |r| == k
  {
    if k == 0 then [] else [(n % 256) as byte] + WriteLE(n / 256, k - 1)
  }

  function ReadLE(s: seq<byte>): nat {
    if s == [] then 0 else s[0] as nat + 256 * ReadLE(s[1..])
  }

  function Power256(k: nat): (r: nat)
    ensures 1 <= r
  {
    if k == 0 then 1 else 256 * Power256(k - 1)
  }

  lemma {:induction false} ReadWritten(n: nat, k: nat)
    requires n < Power256(k)
    ensures ReadLE(WriteLE(n, k)) == n
  {
    if k != 0 {
      ReadWritten(n / 256, k - 1);
      assert WriteLE(n, k)[1..] == WriteLE(n / 256, k - 1);
    }
  }

  lemma Powers()
    ensures Power256(4) == TWO32 && Power256(8) == TWO64
  {
    assert Power256(1) == 256 && Power256(2) == 0x1_0000 && Power256(3) == 0x100_0000;
    assert Power256(4) == TWO32 && Power256(5) == 256 * TWO32 && Power256(6) == 0x1_0000 * TWO32;
    assert Power256(7) == 0x100_0000 * TWO32;
  }

  lemma ReadLE32Written(n: nat)
    requires n < TWO32
    ensures ReadLE(WriteLE(n, 4)) == n
  {
    Powers();
    ReadWritten(n, 4);
  }

  lemma ReadLE64Written(n: nat)
    requires n < TWO64
    ensures ReadLE(WriteLE(n, 8)) == n
  {
    Powers();
    ReadWritten(n, 8);
  }

  // ----- Header -----

  /** The frame descriptor. */
  datatype Info = Info(linked: bool, blockChecksum: bool, contentChecksum: bool, contentSize: Option<nat>,
                       dictID: Option<nat>, blockSizeID: nat)

  predicate InfoOk(info: Info) {
    && 4 <= info.blockSizeID <= 7
    && (info.contentSize.Some? ==> info.contentSize.value < TWO64)
    && (info.dictID.Some? ==> info.dictID.value < TWO32)
  }

  /** LZ4F_getBlockSize for the four valid identifiers. */
  function BlockSizeOf(id: nat): (size: nat)
    requires 4 <= id <= 7
    ensures 0x1_0000 <= size <= 0x40_0000
  {
    match id
    case 4 => 0x1_0000
    case 5 => 0x4_0000
    case 6 => 0x10_0000
    case _ => 0x40_0000
  }

  function Bit(b: bool): nat { if b then 1 else 0 }

  /** FLG: version 01, then one bit per option. */
  function Flags(info: Info): byte {
    (64 + 32 * Bit(!info.linked) + 16 * Bit(info.blockChecksum) + 8 * Bit(info.contentSize.Some?)
     + 4 * Bit(info.contentChecksum) + Bit(info.dictID.Some?)) as byte
  }

  /** What the header checksum covers. */
  function Descriptor(info: Info): seq<byte>
    requires InfoOk(info)
  {
    [Flags(info), (16 * info.blockSizeID) as byte]
    + (if info.contentSize.Some? then WriteLE(info.contentSize.value, 8) else [])
    + (if info.dictID.Some? then WriteLE(info.dictID.value, 4) else [])
  }

  /** LZ4F_headerChecksum: the second byte of the hash. */
  function HeaderChecksum(s: seq<byte>): byte {
    (Xxh32.Hash(s, 0) / 256 % 256) as byte
  }

  function EncodeHeader(info: Info): (r: seq<byte>)
    requires InfoOk(info)
    ensures |r| == HeaderSize(info)
  {
    WriteLE(MAGICNUMBER, 4) + Descriptor(info) + [HeaderChecksum(Descriptor(info))]
  }

  function HeaderSize(info: Info): (size: nat)
    ensures HEADER_SIZE_MIN <= size <= HEADER_SIZE_MAX
  {
    HEADER_SIZE_MIN + (if info.contentSize.Some? then 8 else 0) + (if info.dictID.Some? then 4 else 0)
  }

  lemma MagicBytes()
    ensures WriteLE(MAGICNUMBER, 4) == [0x04, 0x22, 0x4D, 0x18]
  {
    assert WriteLE(0x18, 1) == [0x18] + WriteLE(0, 0);
    assert WriteLE(0x184D, 2) == [0x4D] + WriteLE(0x18, 1);
    assert WriteLE(0x18_4D22, 3) == [0x22] + WriteLE(0x184D, 2);
  }

  /** A header byte by byte: blocks of 64 KB that stand alone, and a content checksum. */
  lemma DefaultHeader()
    ensures EncodeHeader(Info(false, false, true, None, None, 4)) == [0x04, 0x22, 0x4D, 0x18, 0x64, 0x40, 0xA7]
  {
    hide Xxh32.Hash, WriteLE;
    MagicBytes();
    HashValues.Header32();
    assert Descriptor(Info(false, false, true, None, None, 4)) == HashValues.DESCRIPTOR;
  }

  /** The order of the optional fields, and the sizes that the block size identifiers stand for. */
  lemma DescriptorBytes(size: nat, id: nat)
    requires size < TWO64 && id < TWO32
    ensures Descriptor(Info(true, true, false, Some(size), Some(id), 7)) == [0x59, 0x70] + WriteLE(size, 8) + WriteLE(id, 4)
    ensures BlockSizeOf(4) == 64 * 1024 && BlockSizeOf(5) == 256 * 1024 && BlockSizeOf(6) == 1024 * 1024 && BlockSizeOf(7) == 4 * 1024 * 1024
  {
  }

  /** What LZ4F_decodeHeader finds: an error, a header of known size that is not yet
      complete, or a header. */
  datatype HeaderResult = Wrong | Incomplete(size: nat) | Header(info: Info, size: nat)

  function ParseHeader(s: seq<byte>): HeaderResult
    requires HEADER_SIZE_MIN <= |s|
  {
    var flg := s[4] as nat;
    var hasSize, hasDict := flg / 8 % 2 == 1, flg % 2 == 1;
    var size := HEADER_SIZE_MIN + (if hasSize then 8 else 0) + (if hasDict then 4 else 0);
    if ReadLE(s[..4]) != MAGICNUMBER || flg / 2 % 2 != 0 || flg / 64 != 1 then Wrong
    else if |s| < size then Incomplete(size)
    else
      var bd := s[5] as nat;
      if bd / 128 != 0 || bd / 16 % 8 < 4 || bd % 16 != 0 || HeaderChecksum(s[4..size - 1]) != s[size - 1] then Wrong
      else
        Header(Info(flg / 32 % 2 == 0, flg / 16 % 2 == 1, flg / 4 % 2 == 1,
                    if hasSize then Some(ReadLE(s[6..14])) else None,
                    if hasDict then Some(ReadLE(s[size - 5..size - 1])) else None,
                    bd / 16 % 8),
               size)
  }

  lemma FlagBits(info: Info)
    ensures var f := Flags(info) as nat;
            && f / 64 == 1 && f / 2 % 2 == 0
            && (f / 32 % 2 == 0 <==> info.linked) && (f / 16 % 2 == 1 <==> info.blockChecksum)
            && (f / 8 % 2 == 1 <==> info.contentSize.Some?) && (f / 4 % 2 == 1 <==> info.contentChecksum)
            && (f % 2 == 1 <==> info.dictID.Some?)
  {
  }

  /** Where the fields of a header lie, whatever follows it. */
  lemma HeaderFields(info: Info, rest: seq<byte>)
    requires InfoOk(info)
    ensures var s, size := EncodeHeader(info) + rest, HeaderSize(info);
            && s[..4] == WriteLE(MAGICNUMBER, 4) && s[4] == Flags(info) && s[5] == (16 * info.blockSizeID) as byte
            && s[4..size - 1] == Descriptor(info) && s[size - 1] == HeaderChecksum(Descriptor(info))
            && (info.contentSize.Some? ==> s[6..14] == WriteLE(info.contentSize.value, 8))
            && (info.dictID.Some? ==> s[size - 5..size - 1] == WriteLE(info.dictID.value, 4))
  {
    hide Flags, HeaderChecksum, WriteLE;
    var s, size, d := EncodeHeader(info) + rest, HeaderSize(info), Descriptor(info);
    assert s[4..size - 1] == d;
    assert s[4] == d[0] && s[5] == d[1];
    if info.contentSize.Some? {
      SliceOfSlice(s, 4, size - 1, 2, 10);
      assert d[2..10] == WriteLE(info.contentSize.value, 8);
    }
    if info.dictID.Some? {
      SliceOfSlice(s, 4, size - 1, |d| - 4, |d|);
      assert d[|d| - 4..|d|] == WriteLE(info.dictID.value, 4);
    }
  }

  /** Header round trip: a header is read back, and a beginning of it tells its size. */
  lemma ParseEncodedHeader(info: Info, rest: seq<byte>)
    requires InfoOk(info)
    ensures ParseHeader(EncodeHeader(info) + rest) == Header(info, HeaderSize(info))
  {
    hide Flags, HeaderChecksum, WriteLE, EncodeHeader, Descriptor;
    HeaderFields(info, rest);
    FlagBits(info);
    ReadLE32Written(MAGICNUMBER);
    if info.contentSize.Some? { ReadLE64Written(info.contentSize.value); }
    if info.dictID.Some? { ReadLE32Written(info.dictID.value); }
  }

  lemma ParsePartHeader(info: Info, n: nat)
    requires InfoOk(info) && HEADER_SIZE_MIN <= n < HeaderSize(info)
    ensures ParseHeader(EncodeHeader(info)[..n]) == Incomplete(HeaderSize(info))
  {
    hide Flags, HeaderChecksum, WriteLE, EncodeHeader, Descriptor;
    HeaderFields(info, []);
    FlagBits(info);
    ReadLE32Written(MAGICNUMBER);
    var s := EncodeHeader(info) + [];
    assert EncodeHeader(info)[..n][..4] == s[..4] && EncodeHeader(info)[..n][4] == s[4];
  }

  // ----- Blocks -----

  /** A stored block is either the content itself or an LZ4 block. */
  datatype FrameBlock = Raw(bytes: seq<byte>) | Packed(bytes: seq<byte>)

  /** What a block may refer to: all content before it, if blocks are linked. */
  function History(info: Info, out: seq<byte>): seq<byte> {
    if info.linked then out else []
  }

  function BlockContent(fb: FrameBlock, hist: seq<byte>): seq<byte> {
    match fb
    case Raw(bytes) => bytes
    case Packed(bytes) =>
      match ParseBlock(bytes)
      case None => []
      case Some(b) => Content(hist, b)
  }

  ghost predicate BlockOk(info: Info, hist: seq<byte>, fb: FrameBlock)
    requires InfoOk(info)
  {
    && |fb.bytes| <= BlockSizeOf(info.blockSizeID)
    && (fb.Packed? ==> Decodable(fb.bytes, hist) && |BlockContent(fb, hist)| <= BlockSizeOf(info.blockSizeID))
  }

  /** The content of `out` and all of `fbs` behind it. */
  function BlocksOutput(info: Info, out: seq<byte>, fbs: seq<FrameBlock>): (r: seq<byte>)
    ensures out <= r
  {
    if fbs == [] then out
    else
      var before := BlocksOutput(info, out, fbs[..|fbs| - 1]);
      before + BlockContent(fbs[|fbs| - 1], History(info, before))
  }

  ghost predicate BlocksOk(info: Info, out: seq<byte>, fbs: seq<FrameBlock>)
    requires InfoOk(info)
  {
    fbs == [] ||
    (&& BlocksOk(info, out, fbs[..|fbs| - 1])
     && BlockOk(info, History(info, BlocksOutput(info, out, fbs[..|fbs| - 1])), fbs[|fbs| - 1]))
  }

  function Checksum(s: seq<byte>): seq<byte> {
    WriteLE(Xxh32.Hash(s, 0), 4)
  }

  function BlockHeader(fb: FrameBlock): nat {
    |fb.bytes| + if fb.Raw? then BLOCKUNCOMPRESSED_FLAG else 0
  }

  function EncodeFrameBlock(info: Info, fb: FrameBlock): seq<byte> {
    WriteLE(BlockHeader(fb), 4) + fb.bytes + if info.blockChecksum then Checksum(fb.bytes) else []
  }

  function EncodeBlocks(info: Info, fbs: seq<FrameBlock>): seq<byte> {
    if fbs == [] then [] else EncodeBlocks(info, fbs[..|fbs| - 1]) + EncodeFrameBlock(info, fbs[|fbs| - 1])
  }

  // ----- Frames -----

  datatype Frame = Frame(info: Info, blocks: seq<FrameBlock>)

  function FrameContent(f: Frame): seq<byte> {
    BlocksOutput(f.info, [], f.blocks)
  }

  ghost predicate FrameOk(f: Frame) {
    && InfoOk(f.info) && BlocksOk(f.info, [], f.blocks)
    && (f.info.contentSize.Some? ==> f.info.contentSize.value == |FrameContent(f)|)
  }

  function FrameEnd(f: Frame): seq<byte> {
    WriteLE(0, 4) + if f.info.contentChecksum then Checksum(FrameContent(f)) else []
  }

  function EncodeFrame(f: Frame): seq<byte>
    requires InfoOk(f.info)
  {
    EncodeHeader(f.info) + EncodeBlocks(f.info, f.blocks) + FrameEnd(f)
  }

  /** A whole frame byte by byte: without blocks, an end mark and the checksum of nothing. */
  lemma EmptyFrame()
    ensures EncodeFrame(Frame(Info(false, false, true, None, None, 4), []))
         == [0x04, 0x22, 0x4D, 0x18, 0x64, 0x40, 0xA7, 0, 0, 0, 0, 0x05, 0x5D, 0xCC, 0x02]
  {
    hide EncodeHeader, WriteLE, Xxh32.Hash;
    DefaultHeader();
    HashValues.Nothing32();
    ZeroBytes();
    ChecksumBytes();
  }

  lemma ZeroBytes()
    ensures WriteLE(0, 4) == [0, 0, 0, 0]
  {
    assert WriteLE(0, 1) == [0] + WriteLE(0, 0);
    assert WriteLE(0, 2) == [0] + WriteLE(0, 1);
    assert WriteLE(0, 3) == [0] + WriteLE(0, 2);
  }

  lemma ChecksumBytes()
    ensures WriteLE(0x02CC_5D05, 4) == [0x05, 0x5D, 0xCC, 0x02]
  {
    assert WriteLE(0x02, 1) == [0x02] + WriteLE(0, 0);
    assert WriteLE(0x02CC, 2) == [0xCC] + WriteLE(0x02, 1);
    assert WriteLE(0x02_CC5D, 3) == [0x5D] + WriteLE(0x02CC, 2);
  }

  /** Blocks byte by byte: the highest bit of the size marks one that is stored. */
  lemma BlockBytes(info: Info, x: byte)
    requires !info.blockChecksum
    ensures EncodeFrameBlock(info, Raw([x])) == [1, 0, 0, 0x80, x] && EncodeFrameBlock(info, Packed([x])) == [1, 0, 0, 0, x]
  {
    assert WriteLE(0x80, 1) == [0x80] + WriteLE(0, 0) && WriteLE(0, 1) == [0] + WriteLE(0, 0);
    assert WriteLE(0x8000, 2) == [0] + WriteLE(0x80, 1) && WriteLE(0, 2) == [0] + WriteLE(0, 1);
    assert WriteLE(0x80_0000, 3) == [0] + WriteLE(0x8000, 2) && WriteLE(0, 3) == [0] + WriteLE(0, 2);
  }

  /** The bytes from block `i` on. */
  function FrameFrom(f: Frame, i: nat): seq<byte>
    requires i <= |f.blocks|
  {
    EncodeBlocks(f.info, f.blocks[i..]) + FrameEnd(f)
  }

  lemma {:induction false} EncodeBlocksFirst(info: Info, fbs: seq<FrameBlock>)
    requires fbs != []
    ensures EncodeBlocks(info, fbs) == EncodeFrameBlock(info, fbs[0]) + EncodeBlocks(info, fbs[1..])
  {
    hide EncodeFrameBlock;
    if |fbs| == 1 {
      assert fbs[..0] == [] && fbs[1..] == [];
      assert EncodeBlocks(info, fbs[..0]) == [] && EncodeBlocks(info, fbs[1..]) == [];
    } else {
      var front := fbs[..|fbs| - 1];
      EncodeBlocksFirst(info, front);
      assert front[1..] == fbs[1..][..|fbs| - 2];
      assert EncodeBlocks(info, fbs[1..]) == EncodeBlocks(info, front[1..]) + EncodeFrameBlock(info, fbs[|fbs| - 1]);
    }
  }

  /** The content in front of block `i`. */
  function Before(f: Frame, i: nat): seq<byte>
    requires i <= |f.blocks|
  {
    BlocksOutput(f.info, [], f.blocks[..i])
  }

  lemma BeforeNext(f: Frame, i: nat)
    requires FrameOk(f) && i < |f.blocks|
    ensures Before(f, i + 1) == Before(f, i) + BlockContent(f.blocks[i], History(f.info, Before(f, i)))
    ensures BlockOk(f.info, History(f.info, Before(f, i)), f.blocks[i])
  {
    hide BlockOk, BlockContent, EncodeFrameBlock;
    assert f.blocks[..i + 1][..i] == f.blocks[..i];
    BlocksOkPrefix(f.info, f.blocks, i + 1);
  }

  lemma FromNext(f: Frame, i: nat)
    requires i < |f.blocks|
    ensures FrameFrom(f, i) == EncodeFrameBlock(f.info, f.blocks[i]) + FrameFrom(f, i + 1)
  {
    hide EncodeFrameBlock, EncodeBlocks, FrameEnd;
    EncodeBlocksFirst(f.info, f.blocks[i..]);
    assert f.blocks[i..][1..] == f.blocks[i + 1..];
  }

  lemma {:induction false} BlocksOkPrefix(info: Info, fbs: seq<FrameBlock>, n: nat)
    requires InfoOk(info) && BlocksOk(info, [], fbs) && n <= |fbs|
    ensures BlocksOk(info, [], fbs[..n])
    decreases |fbs|
  {
    hide BlockOk;
    if n == |fbs| {
      assert fbs[..n] == fbs;
    } else {
      BlocksOkPrefix(info, fbs[..|fbs| - 1], n);
      assert fbs[..|fbs| - 1][..n] == fbs[..n];
    }
  }

  lemma {:induction false} BeforeIsPrefix(f: Frame, i: nat)
    requires i <= |f.blocks|
    ensures Before(f, i) <= FrameContent(f)
    decreases |f.blocks| - i
  {
    if i == |f.blocks| {
      assert f.blocks[..i] == f.blocks;
    } else {
      BeforeIsPrefix(f, i + 1);
      assert f.blocks[..i + 1][..i] == f.blocks[..i];
    }
  }
}
