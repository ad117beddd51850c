/** How large a frame can become: LZ4F_compressBound_internal, LZ4F_compressFrameBound and
    the block size that LZ4F_compressFrame chooses.
 */
module FrameBounds {
  import opened Basics
  import opened BlockFormat
  import opened FrameFormat

  /** LZ4F_preferences_t; a content size, dictionary identifier or block size of 0 stands
      for none, none and the default. */
  datatype Prefs = Prefs(blockSizeID: nat, linked: bool, blockChecksum: bool, contentChecksum: bool,
                         contentSize: nat, dictID: nat, level: int, autoFlush: bool)

  predicate PrefsOk(p: Prefs) {
    (p.blockSizeID == 0 || 4 <= p.blockSizeID <= 7) && p.contentSize < TWO64 && p.dictID < TWO32
  }

  /** LZ4F_getBlockSize. */
  function GetBlockSize(id: nat): (size: nat)
    requires id == 0 || 4 <= id <= 7
    ensures 0x1_0000 <= size <= 0x40_0000
  {
    BlockSizeOf(if id == 0 then 4 else id)
  }

  // ----- The best block size -----

  /** The smallest block size that holds the whole source, if it is smaller than the
      requested one. */
  predicate IsOptimal(id: nat, requested: nat, srcSize: nat)
    requires requested == 0 || 4 <= requested <= 7
  {
    && (id == requested || (4 <= id < requested && srcSize <= BlockSizeOf(id)))
    && forall k :: 4 <= k < id && k < requested ==> BlockSizeOf(k) < srcSize
  }

  /** LZ4F_optimalBSID. */
  method OptimalBSID(requestedBSID: nat, srcSize: nat) returns (id: nat)
    requires requestedBSID == 0 || 4 <= requestedBSID <= 7
    ensures IsOptimal(id, requestedBSID, srcSize)
  {
    var proposedBSID, maxBlockSize := 4, 0x1_0000;
    while requestedBSID > proposedBSID
      invariant 4 <= proposedBSID && (4 <= requestedBSID ==> proposedBSID <= requestedBSID)
      invariant proposedBSID <= 7 ==> maxBlockSize == BlockSizeOf(proposedBSID)
      invariant forall k :: 4 <= k < proposedBSID ==> requestedBSID != 0 && BlockSizeOf(k) < srcSize
    {
      if srcSize <= maxBlockSize {
        return proposedBSID;
      }
      proposedBSID, maxBlockSize := proposedBSID + 1, maxBlockSize * 4;
    }
    return requestedBSID;
  }

  // ----- Bounds -----

  /** `blocks` blocks, `full` of them full and perhaps one of `last` bytes, stored
      uncompressed. */
  function BlocksSize(blocks: nat, full: nat, last: nat, blockSize: nat, crc: nat): nat {
    (BHSIZE + crc) * blocks + blockSize * full + last
  }

  function Full(total: nat, blockSize: nat): nat
    requires 0 < blockSize
  {
    total / blockSize
  }

  function Partial(total: nat, blockSize: nat): (r: nat)
    requires 0 < blockSize
    ensures r < blockSize
  {
    total % blockSize
  }

  /** LZ4F_compressBound_internal; the numbers of blocks are unsigned of 32 bits. */
  function BoundInternal(srcSize: nat, p: Prefs, alreadyBuffered: nat): nat
    requires PrefsOk(p)
  {
    var flush := p.autoFlush || srcSize == 0;
    var blockSize := GetBlockSize(p.blockSizeID);
    var maxSrcSize := srcSize + (if alreadyBuffered <= blockSize - 1 then alreadyBuffered else blockSize - 1);
    var nbFullBlocks := Full(maxSrcSize, blockSize) % TWO32;
    var lastBlockSize := if flush then Partial(maxSrcSize, blockSize) else 0;
    var nbBlocks := (nbFullBlocks + Sign(lastBlockSize)) % TWO32;
    BlocksSize(nbBlocks, nbFullBlocks, lastBlockSize, blockSize, Crc(p)) + FrameEndSize(p)
  }

  function Sign(n: nat): nat { if n > 0 then 1 else 0 }

  function Crc(p: Prefs): nat { if p.blockChecksum then BFSIZE else 0 }

  function FrameEndSize(p: Prefs): nat { BHSIZE + if p.contentChecksum then BFSIZE else 0 }

  /** LZ4F_compressFrameBound. */
  function FrameBound(srcSize: nat, p: Prefs): nat
    requires PrefsOk(p)
  {
    HEADER_SIZE_MAX + BoundInternal(srcSize, p.(autoFlush := true), 0)
  }

  /** A header of 19 bytes, 4 bytes and a checksum around each block, and the end of the frame. */
  lemma FrameBoundValues()
    ensures FrameBound(0, Prefs(0, false, false, false, 0, 0, 0, false)) == 19 + 4
    ensures FrameBound(0x1_0001, Prefs(4, true, true, true, 0, 0, 0, false)) == 19 + (8 + 0x1_0000) + (8 + 1) + 8
  {
    assert Full(0x1_0001, 0x1_0000) == 1 && Partial(0x1_0001, 0x1_0000) == 1;
  }

  /** What LZ4F_compressFrame makes of the caller's preferences. */
  function Adjusted(p: Prefs, srcSize: nat, id: nat): Prefs
    requires id == 0 || 4 <= id <= 7
  {
    p.(contentSize := if p.contentSize != 0 then srcSize else 0, blockSizeID := id, autoFlush := true,
       linked := p.linked && srcSize > GetBlockSize(id))
  }

  /** The choice of another block size never changes the bound. */
  lemma FrameBoundIsStable(srcSize: nat, p: Prefs, id: nat)
    requires PrefsOk(p) && IsOptimal(id, p.blockSizeID, srcSize) && srcSize < TWO64
    ensures PrefsOk(Adjusted(p, srcSize, id)) && FrameBound(srcSize, Adjusted(p, srcSize, id)) == FrameBound(srcSize, p)
  {
    hide Full, Partial;
    if id != p.blockSizeID {
      OneBlock(srcSize, BlockSizeOf(id));
      OneBlock(srcSize, BlockSizeOf(p.blockSizeID));
      if srcSize == BlockSizeOf(id) {
        SizesGrow(id, p.blockSizeID);
      }
    }
  }

  lemma SizesGrow(a: nat, b: nat)
    requires 4 <= a < b <= 7
    ensures BlockSizeOf(a) < BlockSizeOf(b)
  {
  }

  lemma OneBlock(srcSize: nat, blockSize: nat)
    requires 0 < blockSize
    ensures srcSize < blockSize ==> Full(srcSize, blockSize) == 0 && Partial(srcSize, blockSize) == srcSize
    ensures srcSize == blockSize ==> Full(srcSize, blockSize) == 1 && Partial(srcSize, blockSize) == 0
  {
  }

  // ----- What the blocks can take -----

  /** The largest size of the blocks made of `total` bytes: all stored uncompressed. */
  function Room(total: nat, blockSize: nat, crc: nat, flush: bool): nat
    requires 0 < blockSize
  {
    if total >= blockSize then BHSIZE + crc + blockSize + Room(total - blockSize, blockSize, crc, flush)
    else if flush && 0 < total then BHSIZE + crc + total
    else 0
  }

  lemma BlocksSizeStep(q: nat, e: nat, last: nat, blockSize: nat, crc: nat)
    ensures BlocksSize(q + 1 + e, q + 1, last, blockSize, crc) == BlocksSize(q + e, q, last, blockSize, crc) + BHSIZE + crc + blockSize
  {
  }

  lemma {:induction false} RoomSum(total: nat, blockSize: nat, crc: nat, flush: bool)
    requires 0 < blockSize
    ensures var q, last := Full(total, blockSize), if flush then Partial(total, blockSize) else 0;
            Room(total, blockSize, crc, flush) == BlocksSize(q + Sign(last), q, last, blockSize, crc)
  {
    if total >= blockSize {
      hide BlocksSize, Full, Partial;
      RoomSum(total - blockSize, blockSize, crc, flush);
      StepBack(total, blockSize);
      var last := if flush then Partial(total, blockSize) else 0;
      BlocksSizeStep(Full(total - blockSize, blockSize), Sign(last), last, blockSize, crc);
    } else {
      OneBlock(total, blockSize);
    }
  }

  lemma StepBack(total: nat, blockSize: nat)
    requires 0 < blockSize <= total
    ensures Full(total, blockSize) == Full(total - blockSize, blockSize) + 1
    ensures Partial(total, blockSize) == Partial(total - blockSize, blockSize)
  {
    var q, r := Full(total - blockSize, blockSize), Partial(total - blockSize, blockSize);
    assert total == blockSize * (q + 1) + r;
    OneQuotient(blockSize, Full(total, blockSize), Partial(total, blockSize), q + 1, r);
  }

  lemma OneQuotient(b: nat, q: nat, r: nat, q': nat, r': nat)
    requires b * q + r == b * q' + r' && r < b && r' < b
    ensures q == q' && r == r'
  {
    if q < q' {
      NoFewer(b, q + 1, q');
    } else if q' < q {
      NoFewer(b, q' + 1, q);
    }
  }

  lemma NoFewer(c: nat, a: int, b: int)
    requires a <= b
    ensures c * a <= c * b
  {
  }

  lemma Fewer(c: nat, a: nat, b: nat)
    requires a < b && 0 < c
    ensures c * a < c * b
  {
  }

  /** The blocks made of `total` bytes can be counted in 32 bits. */
  predicate Countable(total: nat, blockSize: nat, flush: bool)
    requires 0 < blockSize
  {
    Full(total, blockSize) + (if flush then Sign(Partial(total, blockSize)) else 0) < TWO32
  }

  /** The bound leaves room for the blocks and the end of the frame exactly as long as the
      number of blocks fits 32 bits. */
  lemma BoundIsEnough(srcSize: nat, p: Prefs, buffered: nat)
    requires PrefsOk(p) && buffered < GetBlockSize(p.blockSizeID)
    ensures var blockSize, flush := GetBlockSize(p.blockSizeID), p.autoFlush || srcSize == 0;
            Room(buffered + srcSize, blockSize, Crc(p), flush) + FrameEndSize(p) <= BoundInternal(srcSize, p, buffered)
            <==> Countable(buffered + srcSize, blockSize, flush)
  {
    hide GetBlockSize, Room, BlocksSize, Full, Partial, Sign;
    var blockSize, total, flush := GetBlockSize(p.blockSizeID), buffered + srcSize, p.autoFlush || srcSize == 0;
    RoomSum(total, blockSize, Crc(p), flush);
    assert Sign(0) == 0 by { NoSign(); }
    WrappedSize(Full(total, blockSize), if flush then Partial(total, blockSize) else 0, blockSize, Crc(p));
  }

  lemma NoSign()
    ensures Sign(0) == 0
  {
  }

  lemma WrappedSize(q: nat, last: nat, blockSize: nat, crc: nat)
    requires 0 < blockSize
    ensures BlocksSize(q + Sign(last), q, last, blockSize, crc)
            <= BlocksSize((q % TWO32 + Sign(last)) % TWO32, q % TWO32, last, blockSize, crc)
            <==> q + Sign(last) < TWO32
  {
    var n := (q % TWO32 + Sign(last)) % TWO32;
    Wraps(q, Sign(last));
    if q + Sign(last) >= TWO32 {
      Fewer(BHSIZE + crc, n, q + Sign(last));
      NoFewer(blockSize, q % TWO32, q);
    }
  }

  lemma Wraps(q: nat, e: nat)
    requires e <= 1
    ensures q % TWO32 <= q
    ensures if q + e < TWO32 then q % TWO32 == q && (q % TWO32 + e) % TWO32 == q + e else (q % TWO32 + e) % TWO32 < q + e
  {
  }

  /** One block too many: the room for four bytes per block is missing. */
  lemma BoundTooSmall()
    ensures var srcSize, p := 0xFFFF_FFFF * 0x1_0000 + 1, Prefs(4, false, false, false, 0, 0, 1, true);
            BoundInternal(srcSize, p, 0) + 4 * TWO32 == Room(srcSize, 0x1_0000, 0, true) + FrameEndSize(p)
  {
    var srcSize := 0xFFFF_FFFF * 0x1_0000 + 1;
    assert Full(srcSize, 0x1_0000) == 0xFFFF_FFFF && Partial(srcSize, 0x1_0000) == 1;
    RoomSum(srcSize, 0x1_0000, 0, true);
  }
}
