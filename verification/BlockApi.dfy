/** Single blocks, compressed and decompressed: the entry points of the block library
    and their round trips. */
module BlockApi {
  import opened Basics
  import opened BlockFormat
  import opened SourceParse
  import opened Emitter
  import opened DecoderSpec
  import State = DecoderState
  import Decoder
  import Fast = FastCompressor
  import FastTable
  import FastTrace
  import FastStream
  import HashChain
  import SearchedRuns
  import LazyParser
  import OptimalParser

  const MAX_INPUT_SIZE: nat := FastStream.MAX_INPUT_SIZE

  // ----- Compression -----

  /** LZ4_compressBound: 0 for an input that is too large. */
  function InputBound(n: nat): nat {
    if n > MAX_INPUT_SIZE then 0 else CompressBound(n)
  }

  /** A call for the whole of `src`, without history. */
  ghost function SetupFor(src: seq<byte>, hash: nat -> nat): FastTable.Setup {
    FastTable.Setup(src, 0, 0, if |src| < FastTable.LZ4_64KLIMIT then FastTable.ByU16 else FastTable.ByU32,
                    FastTable.WithPrefix, FastTable.NoDictIssue, hash)
  }

  /** The block `b` of the first `consumed` bytes, by a scan that starts with a zeroed table. */
  ghost predicate Thorough(src: seq<byte>, size: nat, hash: nat -> nat, acceleration: nat, consumed: nat, b: Block, lag: nat)
    requires 1 <= acceleration
  {
    FastTrace.Thorough(SetupFor(src, hash), acceleration, seq(size, _ => 0), consumed, b, lag)
  }

  ghost predicate DoesNotFit(src: seq<byte>, size: nat, hash: nat -> nat, acceleration: nat, b: Block, room: nat)
    requires 1 <= acceleration
  {
    FastTrace.DoesNotFit(SetupFor(src, hash), acceleration, seq(size, _ => 0), b, room)
  }

  /** A zeroed table suits any source. */
  method InitStream(src: seq<byte>, size: nat, hash: nat -> nat) returns (su: FastTable.Setup, table: array<nat>)
    requires (forall p :: hash(p) < size) && |src| <= MAX_INPUT_SIZE
    ensures fresh(table) && su == SetupFor(src, hash) && table[..] == seq(size, _ => 0)
    ensures FastTable.SetupOk(su) && FastTable.Indexed(su, table, 1) && FastTable.Bucketed(su, table)
  {
    table := new nat[size](_ => 0);
    var tableType := if |src| < FastTable.LZ4_64KLIMIT then FastTable.ByU16 else FastTable.ByU32;
    su := FastTable.Setup(src, 0, 0, tableType, FastTable.WithPrefix, FastTable.NoDictIssue, hash);
  }

  /** LZ4_compress_generic: the empty block for an empty source. */
  method CompressGeneric(src: seq<byte>, dst: array<byte>, limit: Limit, size: nat, hash: nat -> nat, acceleration: nat)
    returns (r: nat, consumed: nat, ghost b: Block)
    requires (forall p :: hash(p) < size) && 1 <= acceleration
    requires |src| <= MAX_INPUT_SIZE && limit == NotLimited ==> CompressBound(|src|) <= dst.Length
    modifies dst
    ensures 0 < r ==> r <= dst.Length && consumed <= |src| && IsBlockOf(src, 0, consumed, dst[..r], b)
    ensures |src| > MAX_INPUT_SIZE ==> r == 0
    ensures 0 < r && limit != FillOutput ==> consumed == |src|
    ensures 0 < r && limit == FillOutput ==> consumed == |src| || dst.Length <= r + 1
    ensures 0 < r ==> Thorough(src, size, hash, acceleration, consumed, b, if limit == FillOutput then 10 else 0)
    ensures r == 0 ==>
      || |src| > MAX_INPUT_SIZE || (limit == FillOutput && dst.Length == 0)
      || (limit == LimitedOutput && DoesNotFit(src, size, hash, acceleration, b, dst.Length))
  {
    hide IsBlockOf, FastTrace.Thorough, FastTrace.DoesNotFit;
    b := Block([], []);
    if |src| > MAX_INPUT_SIZE { return 0, 0, b; }
    if src == [] {
      EmptyBlock(SetupFor(src, hash), acceleration, seq(size, _ => 0));
      if limit != NotLimited && dst.Length == 0 { return 0, 0, b; }
      dst[0] := 0;
      assert dst[..1] == [0];
      return 1, 0, b;
    }
    if limit == FillOutput && dst.Length == 0 { return 0, 0, b; }
    var su, table := InitStream(src, size, hash);
    r, consumed, b := Fast.CompressValidated(su, table, dst, limit, acceleration);
    if 0 < r { FitsSource(src, consumed, dst[..r], b); }
  }

  lemma EmptyBlock(su: FastTable.Setup, acceleration: nat, before: seq<nat>)
    requires su.buf == [] && su.start == 0 && 1 <= acceleration
    ensures IsBlockOf([], 0, 0, [0], Block([], [])) && FastTrace.DoesNotFit(su, acceleration, before, Block([], []), 0)
    ensures FastTrace.Thorough(su, acceleration, before, 0, Block([], []), 0) && FastTrace.Thorough(su, acceleration, before, 0, Block([], []), 10)
  {
    assert EncodeBlock(Block([], [])) == [0];
  }

  /** LZ4_compress_fast_extState: succeeds whenever the destination has LZ4_compressBound
      bytes, and fails only if a block as thorough as any result does not fit. */
  method CompressFast(src: seq<byte>, dst: array<byte>, size: nat, hash: nat -> nat, acceleration: int)
    returns (r: nat, ghost b: Block)
    requires forall p :: hash(p) < size
    modifies dst
    ensures 0 < r ==> r <= dst.Length && IsBlockOf(src, 0, |src|, dst[..r], b)
    ensures |src| > MAX_INPUT_SIZE ==> r == 0
    ensures 0 < r ==> Thorough(src, size, hash, FastTrace.AccelerationOf(acceleration), |src|, b, 0)
    ensures r == 0 ==>
      || |src| > MAX_INPUT_SIZE
      || (dst.Length < CompressBound(|src|) && DoesNotFit(src, size, hash, FastTrace.AccelerationOf(acceleration), b, dst.Length))
  {
    hide IsBlockOf, Thorough, DoesNotFit;
    var acc := FastTrace.AccelerationOf(acceleration);
    var consumed;
    var limit := if dst.Length >= InputBound(|src|) then NotLimited else LimitedOutput;
    r, consumed, b := CompressGeneric(src, dst, limit, size, hash, acc);
  }

  /** A source whose first four bytes are followed by themselves, one byte on and in the
      same bucket, is never left without a match. */
  lemma RepeatIsUsed(src: seq<byte>, size: nat, hash: nat -> nat, acceleration: nat, b: Block)
    requires 1 <= acceleration && MFLIMIT < |src| && src[0..MINMATCH] == src[1..1 + MINMATCH] && hash(0) == hash(1) < size
    requires Thorough(src, size, hash, acceleration, |src|, b, 0) && |b.last| <= |src|
    ensures b.sequences != []
  {
    hide FastTrace.Thorough;
    if b.sequences == [] {
      FastTrace.SecondMissed(SetupFor(src, hash), acceleration, seq(size, _ => 0), |src|, b);
    }
  }

  /** LZ4_compress_destSize: as much of the source as fits, and with it all of the
      destination but for at most one byte, or all of the source. */
  method CompressDestSize(src: seq<byte>, dst: array<byte>, size: nat, hash: nat -> nat)
    returns (r: nat, consumed: nat, ghost b: Block)
    requires forall p :: hash(p) < size
    modifies dst
    ensures 0 < r ==> r <= dst.Length && consumed <= |src| && IsBlockOf(src, 0, consumed, dst[..r], b)
    ensures 0 < r ==> consumed == |src| || dst.Length <= r + 1
    ensures 0 < r ==> Thorough(src, size, hash, 1, consumed, b, if dst.Length >= CompressBound(|src|) then 0 else 10)
    ensures 0 < r && dst.Length >= CompressBound(|src|) ==> consumed == |src|
    ensures r == 0 <==> |src| > MAX_INPUT_SIZE || dst.Length == 0
  {
    hide IsBlockOf, Thorough, DoesNotFit;
    if dst.Length >= InputBound(|src|) {
      r, b := CompressFast(src, dst, size, hash, 1);
      consumed := |src|;
    } else {
      r, consumed, b := CompressGeneric(src, dst, FillOutput, size, hash, 1);
    }
  }

  // ----- Decompression -----

  /** LZ4_decompress_safe: a result is the content of a whole block, and every valid
      block whose content fits is decoded; into no bytes at all, the zero token only. */
  method DecompressSafe(src: seq<byte>, dst: array<byte>) returns (r: int)
    modifies dst
    ensures 0 <= r ==>
      && r <= dst.Length && ParseBlock(src).Some? && Reachable([], ParseBlock(src).value.sequences)
      && dst[..r] == Output([], ParseBlock(src).value)
    ensures 0 < dst.Length && r < 0 ==> !(Decodable(src, []) && |Output([], ParseBlock(src).value)| <= dst.Length)
    ensures dst.Length == 0 ==> (0 <= r <==> src == [0])
  {
    var c := State.Call(src, [], false, false);
    assert src[..|src|] == src && [] + dst[..0] == [];
    r := Decoder.DecompressGeneric(c, dst, 0, |src|, []);
    assert 0 <= r ==> [] + dst[..r] == dst[..r];
  }

  /** LZ4_decompress_safe_partial into an area of MIN(targetOutputSize, dstCapacity)
      bytes: of a valid block, exactly as much as the area takes.  `k` is the size of
      the block; more input is allowed when its content fills the area. */
  method DecompressSafePartial(src: seq<byte>, dst: array<byte>, ghost k: nat) returns (r: int)
    requires k <= |src|
    modifies dst
    ensures r <= dst.Length
    ensures Decodable(src[..k], []) && (k == |src| || dst.Length <= |Output([], ParseBlock(src[..k]).value)|) ==>
      var content := Output([], ParseBlock(src[..k]).value);
      && r == (if dst.Length <= |content| then dst.Length else |content|)
      && dst[..r] == content[..r]
  {
    var c := State.Call(src, [], true, false);
    assert [] + dst[..0] == [];
    r := Decoder.DecompressGeneric(c, dst, 0, k, []);
    assert 0 <= r ==> [] + dst[..r] == dst[..r];
  }

  /** LZ4_decompress_safe_usingDict: the history is the dictionary, right in front of the
      output or elsewhere.  Only the last 64 KB of it can be referred to. */
  method DecompressUsingDict(src: seq<byte>, dst: array<byte>, start: nat, dict: seq<byte>) returns (r: int)
    requires start <= dst.Length && (start == 0 || dict == [])
    modifies dst
    ensures dst[..start] == old(dst[..start])
    ensures var hist := dict + dst[..start];
      && (0 <= r ==>
            && start + r <= dst.Length && ParseBlock(src).Some? && Reachable(hist, ParseBlock(src).value.sequences)
            && dict + dst[..start + r] == Output(hist, ParseBlock(src).value))
      && (r < 0 && start < dst.Length ==> !(Decodable(src, hist) && |Output(hist, ParseBlock(src).value)| <= |dict| + dst.Length))
      && (start == dst.Length ==> (0 <= r <==> src == [0]))
  {
    assert src[..|src|] == src;
    r := Decoder.DecompressGeneric(State.Call(src, dict, false, start >= 65535), dst, start, |src|, dict + dst[..start]);
  }

  // ----- Round trips -----

  /** What a compressor emits is decodable, and stands for what it consumed. */
  lemma BlockDecodes(buf: seq<byte>, start: nat, consumed: nat, bytes: seq<byte>, b: Block)
    requires IsBlockOf(buf, start, consumed, bytes, b)
    ensures Decodable(bytes, buf[..start]) && ParseBlock(bytes) == Some(b)
    ensures Output(buf[..start], b) == buf[..start + consumed]
  {
    hide EncodeBlock, ParseBlock, ValidBlock, Content, Output;
    EncodedIsDecodable(buf[..start], b);
    assert buf[..start + consumed] == buf[..start] + buf[start..start + consumed];
  }

  /** A block decodes into any area of at least its content's size. */
  method Decode(ghost buf: seq<byte>, ghost consumed: nat, bytes: seq<byte>, ghost b: Block, dst: array<byte>) returns (r: int)
    requires IsBlockOf(buf, 0, consumed, bytes, b) && consumed <= dst.Length
    modifies dst
    ensures r == consumed && dst[..r] == buf[..consumed]
  {
    hide Decodable, ParseBlock, Reachable, EncodeBlock;
    BlockDecodes(buf, 0, consumed, bytes, b);
    assert buf[..0] == [];
    r := DecompressSafe(bytes, dst);
    if dst.Length == 0 {
      EmptyContent(buf, bytes, b);
    }
  }

  /** The compressors write the empty content as a token of zero. */
  lemma EmptyContent(buf: seq<byte>, bytes: seq<byte>, b: Block)
    requires IsBlockOf(buf, 0, 0, bytes, b)
    ensures bytes == [0]
  {
    assert b.sequences == [] && b.last == [];
  }

  /** The valid blocks without content: one token whose literal length is 0. */
  lemma NoContent(src: seq<byte>)
    ensures Decodable(src, []) && Output([], ParseBlock(src).value) == [] <==> |src| == 1 && src[0] < 16
  {
    if |src| == 1 && src[0] < 16 {
      assert ParseLast(src) == Some(src[1..]);
    } else if Decodable(src, []) && ParseBlock(src).value.sequences == [] {
      assert ParseLast(src).Some? && ParseLast(src).value != [];
    }
  }

  /** Into no bytes at all, one of these 16 blocks is decoded and the others are rejected. */
  method DecompressNothing(src: seq<byte>) returns (r: int)
    requires Decodable(src, []) && Output([], ParseBlock(src).value) == []
    ensures |src| == 1 && src[0] < 16 && (0 <= r <==> src[0] == 0)
  {
    NoContent(src);
    var dst := new byte[0];
    r := DecompressSafe(src, dst);
  }

  method RoundTripFast(src: seq<byte>, dst: array<byte>, size: nat, hash: nat -> nat, acceleration: int, out: array<byte>)
    returns (r: nat, n: int)
    requires (forall p :: hash(p) < size) && |src| <= out.Length && dst != out
    modifies dst, out
    ensures 0 < r ==> n == |src| && out[..n] == src
  {
    ghost var b;
    r, b := CompressFast(src, dst, size, hash, acceleration);
    n := 0;
    if 0 < r {
      n := Decode(src, |src|, dst[..r], b, out);
      assert src[..|src|] == src;
    }
  }

  method RoundTripDestSize(src: seq<byte>, dst: array<byte>, size: nat, hash: nat -> nat, out: array<byte>)
    returns (r: nat, consumed: nat, n: int)
    requires (forall p :: hash(p) < size) && |src| <= out.Length && dst != out
    modifies dst, out
    ensures 0 < r ==> r <= dst.Length && consumed <= |src| && n == consumed && out[..n] == src[..consumed]
  {
    ghost var b;
    r, consumed, b := CompressDestSize(src, dst, size, hash);
    n := 0;
    if 0 < r {
      n := Decode(src, consumed, dst[..r], b, out);
    }
  }

  /** Hash-chain levels, and optimal levels with the match length that ends a search. */
  datatype Strategy = Lazy(nbSearches: nat) | Best(nbSearches: nat, targetLength: nat)

  /** The compression levels of LZ4HC. */
  function LevelStrategy(level: int): Strategy {
    var l := if level < 1 then 9 else if level > 12 then 12 else level;
    if l < 3 then Lazy(2)
    else if l == 3 then Lazy(4)
    else if l == 4 then Lazy(8)
    else if l == 5 then Lazy(16)
    else if l == 6 then Lazy(32)
    else if l == 7 then Lazy(64)
    else if l == 8 then Lazy(128)
    else if l == 9 then Lazy(256)
    else if l == 10 then Best(96, 64)
    else if l == 11 then Best(512, 128)
    else Best(16384, OptimalParser.LZ4_OPT_NUM)
  }

  /** How a level searches. */
  function DiligenceOf(level: int, favorDecSpeed: bool): SearchedRuns.Diligence {
    match LevelStrategy(level)
    case Lazy(nbSearches) => LazyParser.LazyDiligence(nbSearches)
    case Best(nbSearches, _) => OptimalParser.OptimalDiligence(nbSearches, favorDecSpeed)
  }

  /** LZ4HC_compress_generic_internal for the block `ctx.buf[start..]`, whose history is
      what precedes it. */
  method CompressHC(ctx: HashChain.HcContext, start: nat, dst: array<byte>, level: int, limit: Limit, favorDecSpeed: bool)
    returns (r: nat, consumed: nat, ghost b: Block)
    requires ctx.Valid() && ctx.nextToUpdate - ctx.dictLimit <= start <= |ctx.buf|
    requires dst as object != ctx.hashTable && dst as object != ctx.chainTable
    requires limit == NotLimited ==> CompressBound(|ctx.buf| - start) <= dst.Length
    modifies ctx`nextToUpdate, ctx.hashTable, ctx.chainTable, dst
    ensures ctx.Valid()
    ensures r == 0 ==>
      || (limit == FillOutput && dst.Length == 0) || |ctx.buf| - start > MAX_INPUT_SIZE
      || (limit == LimitedOutput && SearchedRuns.DoesNotFit(ctx.buf, DiligenceOf(level, favorDecSpeed), start, b, dst.Length))
    ensures 0 < r ==> r <= dst.Length && IsBlockOf(ctx.buf, start, consumed, dst[..r], b)
    ensures 0 < r && limit != FillOutput ==> consumed == |ctx.buf| - start
    ensures 0 < r && limit == FillOutput ==> consumed == |ctx.buf| - start || dst.Length <= r + 1
    ensures var d := DiligenceOf(level, favorDecSpeed);
            0 < r ==> SearchedRuns.Searched(ctx.buf, d, start, consumed, b, if limit == FillOutput then d.lag + 10 else 0)
  {
    hide IsBlockOf, SearchedRuns.DoesNotFit, SearchedRuns.Searched, LevelStrategy;
    b := Block([], []);
    if limit == FillOutput && dst.Length < 1 { return 0, 0, b; }
    if |ctx.buf| - start > MAX_INPUT_SIZE { return 0, 0, b; }
    match LevelStrategy(level)
    case Lazy(nbSearches) =>
      r, consumed, b := LazyParser.CompressHashChain(ctx, start, dst, nbSearches, limit);
    case Best(nbSearches, targetLength) =>
      r, consumed, b :=
        OptimalParser.CompressOptimal(ctx, start, dst, nbSearches, targetLength, limit, level >= 12, favorDecSpeed);
  }

  lemma FitsSource(buf: seq<byte>, consumed: nat, bytes: seq<byte>, b: Block)
    requires IsBlockOf(buf, 0, consumed, bytes, b)
    ensures consumed <= |buf|
  {
  }

  /** One independent block at any level. */
  method RoundTripHC(ctx: HashChain.HcContext, dst: array<byte>, level: int, limit: Limit, favorDecSpeed: bool, out: array<byte>)
    returns (r: nat, consumed: nat, n: int)
    requires ctx.Valid() && ctx.nextToUpdate == ctx.dictLimit && |ctx.buf| <= out.Length
    requires dst as object != ctx.hashTable && dst as object != ctx.chainTable && dst != out
    requires limit == NotLimited ==> CompressBound(|ctx.buf|) <= dst.Length
    modifies ctx`nextToUpdate, ctx.hashTable, ctx.chainTable, dst, out
    ensures 0 < r ==> n == consumed <= |ctx.buf| && out[..n] == ctx.buf[..consumed]
    ensures 0 < r && limit != FillOutput ==> consumed == |ctx.buf|
  {
    hide IsBlockOf;
    ghost var b;
    r, consumed, b := CompressHC(ctx, 0, dst, level, limit, favorDecSpeed);
    n := 0;
    if 0 < r {
      FitsSource(ctx.buf, consumed, dst[..r], b);
      n := Decode(ctx.buf, consumed, dst[..r], b, out);
    }
  }
}
