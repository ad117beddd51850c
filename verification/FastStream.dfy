/** The streaming state of the fast compressor (LZ4_stream_t_internal) and the
    functions that decide what its hash table may be used for.

    Addresses are offsets in one memory `mem`.  The live history of a stream is the
    `dictSize` bytes at `dictionary`; `currentOffset` is the index of the first byte of
    the next block.
 */
module FastStream {
  import opened Basics
  import opened BlockFormat
  import opened SourceParse
  import opened Emitter
  import opened FastTable
  import opened FastTrace
  import opened BlockWriter
  import opened FastCompressor

  const GB: nat := 0x4000_0000
  const MAX_INPUT_SIZE: nat := 0x7E00_0000

  /** The bucket of a position in a window.  The source hashes the bytes there, so that a
      position gets another bucket when a later window has other bytes. */
  type Hash = (seq<byte>, nat) -> nat

  ghost predicate HashOk(hash: Hash, size: nat) {
    forall window, p :: hash(window, p) < size
  }

  function Buckets(hash: Hash, window: seq<byte>): nat -> nat { p => hash(window, p) }

  /** The four bytes behind the first one of a block stand `back` places before, too. */
  predicate Repeated(window: seq<byte>, start: nat, back: int) {
    && 1 <= back <= start + 1 && back < DISTANCE_MAX && start + 1 + MINMATCH <= |window|
    && window[start + 1 - back..start + 1 - back + MINMATCH] == window[start + 1..start + 1 + MINMATCH]
  }

  /** The entry in the bucket of position `p` lies `back` bytes before index `offset`. */
  ghost predicate IsBack(hash: Hash, window: seq<byte>, p: nat, table: seq<nat>, offset: nat, back: nat) {
    hash(window, p) < |table| && table[hash(window, p)] + back == offset
  }

  /** A block begins with the match that its second position has with the entry of its
      bucket, if there is one. */
  ghost predicate FirstBack(hash: Hash, window: seq<byte>, start: nat, table: seq<nat>, offset: nat, ss: seq<Sequence>) {
    var h := hash(window, start + 1);
    h < |table| && hash(window, start) != h && Repeated(window, start, offset + 1 - table[h]) ==>
      BeginsWith(window, start, offset + 1 - table[h], ss)
  }

  /** No position of the block that may be entered has bucket `h`. */
  ghost predicate Unhashed(hash: Hash, window: seq<byte>, start: nat, h: nat) {
    forall p :: start <= p && p + MFLIMIT <= |window| ==> hash(window, p) != h
  }

  /** After a block of `n` bytes, the entries of other buckets are `n` further back. */
  ghost predicate EntriesKept(hash: Hash, window: seq<byte>, start: nat, before: seq<nat>, offset: nat,
                              after: seq<nat>, offset': nat, n: nat) {
    && |after| == |before|
    && forall h :: 0 <= h < |before| && Unhashed(hash, window, start, h) && before[h] + DISTANCE_MAX >= offset ==>
         offset' - after[h] == offset - before[h] + n
  }

  /** The block `b` behind `window[..start]` is as thorough as its hash function lets it be,
      whatever the table knew of the history. */
  ghost predicate ScannedBlock(hash: Hash, size: nat, acceleration: nat, window: seq<byte>, start: nat, b: Block)
    requires 1 <= acceleration
  {
    exists su: Setup, before: seq<nat> ::
      && su.buf == window && su.start == start && su.hash == Buckets(hash, window) && SetupOk(su) && |before| == size
      && Thorough(su, acceleration, before, |window|, b, 0)
  }

  /** Such a block has no room, or, if it was not completed, its sequences have none. */
  ghost predicate NoRoomFor(hash: Hash, size: nat, acceleration: nat, window: seq<byte>, start: nat, b: Block, room: nat)
    requires 1 <= acceleration
  {
    exists su: Setup, before: seq<nat> ::
      && su.buf == window && su.start == start && su.hash == Buckets(hash, window) && SetupOk(su) && |before| == size
      && DoesNotFit(su, acceleration, before, b, room)
  }

  lemma ByScan(hash: Hash, su: Setup, acceleration: nat, before: seq<nat>, b: Block)
    requires 1 <= acceleration && SetupOk(su) && su.hash == Buckets(hash, su.buf) && Thorough(su, acceleration, before, |su.buf|, b, 0)
    ensures ScannedBlock(hash, |before|, acceleration, su.buf, su.start, b)
  {
    hide Thorough;
  }

  lemma ByFailure(hash: Hash, su: Setup, acceleration: nat, before: seq<nat>, b: Block, room: nat)
    requires 1 <= acceleration && SetupOk(su) && su.hash == Buckets(hash, su.buf) && DoesNotFit(su, acceleration, before, b, room)
    ensures NoRoomFor(hash, |before|, acceleration, su.buf, su.start, b, room)
    ensures room < |EncodeBlock(b)| <= CompressBound(|su.buf| - su.start)
  {
    TooBigForBound(su.buf, su.start, b, room, TooBig(su.buf, su.start, b, room, true));
    hide DoesNotFit;
  }

  /** How much of the history stays: nothing of a tiny one elsewhere, and of one that the
      block ends in, what is behind the block. */
  function Kept(dictionary: nat, dictSize: nat, source: nat, inputSize: nat): nat {
    var dictEnd, sourceEnd := dictionary + dictSize, source + inputSize;
    if dictSize < 4 && dictEnd != source && inputSize > 0 then 0
    else if dictionary < sourceEnd < dictEnd then (if dictEnd - sourceEnd < 4 then 0 else Min(dictEnd - sourceEnd, KB64))
    else dictSize
  }

  datatype TableState = Cleared | Used(tableType: TableType)

  /** The history of a call and its block, side by side. */
  function Window(mem: seq<byte>, dictionary: nat, dictSize: nat, source: nat, inputSize: nat): (w: seq<byte>)
    requires dictionary + dictSize <= |mem| && source + inputSize <= |mem|
    ensures |w| == dictSize + inputSize
  {
    mem[dictionary..dictionary + dictSize] + mem[source..source + inputSize]
  }

  /** memmove. */
  method MoveBytes(mem: array<byte>, to: nat, from: nat, n: nat)
    requires to + n <= mem.Length && from + n <= mem.Length
    modifies mem
    ensures mem[to..to + n] == old(mem[from..from + n])
    ensures forall i :: 0 <= i < mem.Length && !(to <= i < to + n) ==> mem[i] == old(mem[i])
  {
    forall i | 0 <= i < n { mem[to + i] := mem[from + i]; }
  }

  function Third(lo: nat, k: nat): nat { lo + 3 * k }

  /** The buckets hold the latest of the first `n` of every third position from `lo` on;
      position `end` has index 64 KB. */
  ghost predicate EveryThird(hash: nat -> nat, lo: nat, n: nat, end: nat, table: seq<nat>) {
    && (forall k: nat :: k < n ==> hash(Third(lo, k)) < |table| && Third(lo, k) + KB64 <= table[hash(Third(lo, k))] + end)
    && (forall h :: 0 <= h < |table| && table[h] != 0 ==> exists k: nat :: k < n && hash(Third(lo, k)) == h && table[h] + end == Third(lo, k) + KB64)
  }

  lemma ThirdIs(lo: nat, k: nat)
    ensures Third(lo, k) == lo + 3 * k && Third(lo, k + 1) == Third(lo, k) + 3
  {
  }

  lemma LastThird(size: nat, n: nat)
    requires 5 <= size - 3 * n <= 7
    ensures n == (size - 5) / 3
  {
  }

  lemma NoThird(hash: nat -> nat, lo: nat, end: nat, table: seq<nat>)
    requires forall h :: 0 <= h < |table| ==> table[h] == 0
    ensures EveryThird(hash, lo, 0, end, table)
  {
  }

  lemma OneMoreThird(hash: nat -> nat, lo: nat, n: nat, end: nat, table: seq<nat>)
    requires EveryThird(hash, lo, n, end, table) && hash(Third(lo, n)) < |table| && Third(lo, n) <= end <= Third(lo, n) + KB64
    ensures EveryThird(hash, lo, n + 1, end, table[hash(Third(lo, n)) := Third(lo, n) + KB64 - end])
  {
  }

  class Stream {
    const hashTable: array<nat>
    var currentOffset: nat
    var tableState: TableState
    var dictionary: nat
    var dictSize: nat

    /** The history belongs to the indexed past, and every entry is at least four
        bytes before the next block. */
    ghost predicate Valid()
      reads this, hashTable
    {
      && dictSize <= currentOffset
      && (tableState == Cleared ==> currentOffset == 0 || KB64 <= currentOffset)
      && forall h :: 0 <= h < hashTable.Length ==>
           hashTable[h] == 0 || (tableState != Cleared && hashTable[h] + MINMATCH <= currentOffset)
    }

    /** LZ4_initStream: zeroed memory. */
    constructor (size: nat)
      ensures Valid() && fresh(hashTable) && hashTable.Length == size
      ensures currentOffset == 0 && dictionary == 0 && dictSize == 0 && tableState == Cleared
    {
      hashTable := new nat[size](_ => 0);
      currentOffset, tableState, dictionary, dictSize := 0, Cleared, 0, 0;
    }

    /** A stream in use, with an index that leaves room for one more block. */
    ghost predicate Ready(linked: bool)
      reads this, hashTable
    {
      && Valid() && currentOffset <= 0x8000_0000 && (tableState == Cleared ==> currentOffset == 0)
      && (linked ==> tableState == Cleared || tableState == Used(ByU32))
    }

    /** Sets up a call whose history is the last `dictSize` indexed bytes. */
    ghost function SetupFor(buf: seq<byte>, tableType: TableType, directive: DictDirective, issue: DictIssue, hash: Hash): Setup
      requires Valid()
      reads this, hashTable
    {
      Setup(buf, dictSize, currentOffset - dictSize, tableType, directive, issue, Buckets(hash, buf))
    }

    /** Why the table may be used as it is: every entry is in the history, or is
        skipped explicitly, or is too far away. */
    lemma TableIsUsable(buf: seq<byte>, tableType: TableType, directive: DictDirective, issue: DictIssue, hash: Hash)
      requires Valid() && HashOk(hash, hashTable.Length)
      requires issue == NoDictIssue ==>
        || dictSize == currentOffset
        || (tableType == ByU32 && KB64 <= dictSize)
        || (tableType == ByU32 && forall h :: 0 <= h < hashTable.Length ==> hashTable[h] + DISTANCE_MAX < currentOffset)
      requires directive == ExtDict ==> dictSize == 0 || MINMATCH <= dictSize
      requires tableType == ByU16 ==> forall h :: 0 <= h < hashTable.Length ==> hashTable[h] < KB64
      ensures Indexed(SetupFor(buf, tableType, directive, issue, hash), hashTable, dictSize + 1)
    {
    }

    /** LZ4_prepareTable: resets the table when it cannot be reused; otherwise, with
        32-bit indexes, leaves a gap of 64 KB after all entries.  The history is
        dropped.  A used table keeps the index small; an unused one is never reset,
        so its index grows by 64 KB at each call. */
    method PrepareTable(inputSize: nat, tableType: TableType)
      requires Valid()
      modifies this`currentOffset, this`tableState, this`dictSize, hashTable
      ensures Valid() && dictSize == 0
      ensures tableState == Cleared || (tableState == Used(tableType) && inputSize < 4096)
      ensures old(tableState) != Cleared ==> currentOffset <= GB + KB64
      ensures old(tableState) != Cleared && tableState == Cleared ==> currentOffset == 0
      ensures old(tableState) == Cleared ==>
        currentOffset == old(currentOffset) + if tableType == ByU32 && old(currentOffset) != 0 then KB64 else 0
      ensures tableState != Cleared && tableType == ByU16 ==> currentOffset + inputSize < 0xFFFF
      ensures tableType == ByU32 && currentOffset != 0 ==>
        forall h :: 0 <= h < hashTable.Length ==> hashTable[h] + DISTANCE_MAX < currentOffset
    {
      if tableState != Cleared {
        if tableState.tableType != tableType
          || (tableType == ByU16 && currentOffset + inputSize >= 0xFFFF)
          || (tableType == ByU32 && currentOffset > GB)
          || inputSize >= 4096
        {
          forall i | 0 <= i < hashTable.Length { hashTable[i] := 0; }
          currentOffset, tableState := 0, Cleared;
        }
      }
      if currentOffset != 0 && tableType == ByU32 {
        currentOffset := currentOffset + KB64;
      }
      dictSize := 0;
    }

    /** LZ4_renormDictT: moves all indexes back when the next block could overflow. */
    method Renorm(nextSize: nat)
      requires Valid() && nextSize <= MAX_INPUT_SIZE && currentOffset <= 0x8000_0000
      modifies this`currentOffset, this`dictSize, this`dictionary, hashTable
      ensures Valid() && currentOffset + nextSize <= 0x8000_0000
      ensures dictSize <= old(dictSize) && dictionary + dictSize == old(dictionary) + old(dictSize)
      ensures dictSize == old(dictSize) || KB64 <= dictSize
      ensures forall h :: 0 <= h < hashTable.Length ==>
        var e := old(hashTable[h]);
        if e + DISTANCE_MAX >= old(currentOffset) then currentOffset - hashTable[h] == old(currentOffset) - e
        else hashTable[h] + DISTANCE_MAX < currentOffset || currentOffset - hashTable[h] == old(currentOffset) - e
      ensures old(currentOffset) + nextSize <= 0x8000_0000 ==>
        currentOffset == old(currentOffset) && dictSize == old(dictSize) && dictionary == old(dictionary)
    {
      if currentOffset + nextSize > 0x8000_0000 {
        var delta := currentOffset - KB64;
        var dictEnd := dictionary + dictSize;
        forall i | 0 <= i < hashTable.Length {
          hashTable[i] := if hashTable[i] < delta then 0 else hashTable[i] - delta;
        }
        currentOffset := KB64;
        if dictSize > KB64 { dictSize := KB64; }
        dictionary := dictEnd - dictSize;
      }
    }

    /** Candidates within reach stay where they are, counted from the next block. */
    ghost predicate SameDistances(before: seq<nat>, offset: nat, after: seq<nat>, offset': nat) {
      |after| == |before| && forall h :: 0 <= h < |before| && before[h] + DISTANCE_MAX >= offset ==> offset' - after[h] == offset - before[h]
    }

    /** LZ4_compress_generic for a block at `source` with the history in force, and
        the bookkeeping around it. */
    method CompressGeneric(mem: seq<byte>, source: nat, inputSize: nat, dst: array<byte>, limit: Limit,
                           tableType: TableType, directive: DictDirective, issue: DictIssue, hash: Hash, acceleration: nat)
      returns (result: nat, ghost b: Block)
      requires Valid() && 1 <= acceleration && limit != FillOutput && dst as object != hashTable
      requires dictionary + dictSize <= |mem| && source + inputSize <= |mem| && inputSize <= MAX_INPUT_SIZE
      requires tableState == Cleared || tableState == Used(tableType)
      requires var su := SetupFor(Window(mem, dictionary, dictSize, source, inputSize), tableType, directive, issue, hash);
               inputSize != 0 ==> SetupOk(su) && Indexed(su, hashTable, dictSize + 1)
      requires tableType == ByU32 ==> currentOffset + inputSize < 0x1_0000_0000
      requires limit == NotLimited ==> CompressBound(inputSize) <= dst.Length
      modifies this`currentOffset, this`dictSize, this`tableState, hashTable, dst
      ensures Valid()
      ensures inputSize == 0 ==> currentOffset == old(currentOffset) && dictSize == old(dictSize) && tableState == old(tableState)
      ensures inputSize != 0 ==> currentOffset == old(currentOffset) + inputSize
      ensures inputSize != 0 ==> dictSize == old(dictSize) + inputSize && tableState == Used(tableType)
      ensures result == 0 ==> limit == LimitedOutput && dst.Length < CompressBound(inputSize)
      ensures 0 < result ==>
        && result <= dst.Length
        && IsBlockOf(Window(mem, dictionary, old(dictSize), source, inputSize), old(dictSize), inputSize, dst[..result], b)
      ensures inputSize != 0 ==>
        var w := Window(mem, dictionary, old(dictSize), source, inputSize);
        if result == 0 then NoRoomFor(hash, hashTable.Length, acceleration, w, old(dictSize), b, dst.Length)
        else ScannedBlock(hash, hashTable.Length, acceleration, w, old(dictSize), b)
      ensures 0 < result && inputSize <= MFLIMIT ==> b.sequences == []
      ensures 0 < result && inputSize > MFLIMIT ==>
        var su := old(SetupFor(Window(mem, dictionary, dictSize, source, inputSize), tableType, directive, issue, hash));
        FirstSearch(su, old(hashTable[..]), b.sequences)
      ensures inputSize == MFLIMIT + 1 ==>
        var su := old(SetupFor(Window(mem, dictionary, dictSize, source, inputSize), tableType, directive, issue, hash));
        su.hash(su.start + 1) < hashTable.Length && hashTable[su.hash(su.start + 1)] == Stored(su, su.start + 1)
      ensures inputSize != 0 ==>
        var su := old(SetupFor(Window(mem, dictionary, dictSize, source, inputSize), tableType, directive, issue, hash));
        UnhitKept(su, old(hashTable[..]), hashTable[..])
    {
      hide IsBlockOf, FirstSearch, Stored, UnhitKept, Thorough, DoesNotFit, ScannedBlock, NoRoomFor;
      ghost var before := hashTable[..];
      var buf := Window(mem, dictionary, dictSize, source, inputSize);
      if inputSize == 0 {
        if limit == LimitedOutput && dst.Length == 0 { return 0, Block([], []); }
        dst[0] := 0;
        EmptyBlock(buf);
        assert dst[..1] == [0];
        return 1, Block([], []);
      }
      var su := Setup(buf, dictSize, currentOffset - dictSize, tableType, directive, issue, Buckets(hash, buf));
      currentOffset, dictSize, tableState := currentOffset + inputSize, dictSize + inputSize, Used(tableType);
      var consumed;
      result, consumed, b := CompressValidated(su, hashTable, dst, limit, acceleration);
      if result == 0 { ByFailure(hash, su, acceleration, before, b, dst.Length); } else { ByScan(hash, su, acceleration, before, b); }
      if inputSize <= MFLIMIT {
        assert forall h :: 0 <= h < hashTable.Length ==> hashTable[h] == before[h];
      }
    }

    lemma EmptyBlock(buf: seq<byte>)
      ensures IsBlockOf(buf, |buf|, 0, [0], Block([], []))
    {
      assert EncodeBlock(Block([], [])) == [0];
      assert buf[|buf|..|buf|] == [];
    }

    /** LZ4_resetStream_fast: prepares for a stream of linked blocks, without history. */
    method ResetFast()
      requires Ready(false)
      modifies this, hashTable
      ensures Ready(true) && dictionary == 0 && dictSize == 0
    {
      PrepareTable(0, ByU32);
      dictionary := 0;
    }

    /** LZ4_compress_fast_extState_fastReset: one independent block, reusing whatever
        the table holds. */
    method CompressFastReset(mem: seq<byte>, source: nat, inputSize: nat, dst: array<byte>, hash: Hash, acceleration: int)
      returns (result: nat, ghost b: Block)
      requires Valid() && HashOk(hash, hashTable.Length) && dst as object != hashTable
      requires source + inputSize <= |mem| && inputSize <= MAX_INPUT_SIZE
      requires currentOffset <= 0x8000_0000
      modifies this, hashTable, dst
      ensures Valid()
      ensures old(Ready(false)) && inputSize <= GB - KB64 ==> Ready(false)
      ensures result == 0 ==> dst.Length < CompressBound(inputSize)
      ensures 0 < result ==>
        && result <= dst.Length
        && IsBlockOf(mem[source..source + inputSize], 0, inputSize, dst[..result], b)
      ensures inputSize != 0 ==>
        if result == 0 then NoRoomFor(hash, hashTable.Length, AccelerationOf(acceleration), mem[source..source + inputSize], 0, b, dst.Length)
        else ScannedBlock(hash, hashTable.Length, AccelerationOf(acceleration), mem[source..source + inputSize], 0, b)
    {
      hide IsBlockOf, ScannedBlock, NoRoomFor;
      var acc := AccelerationOf(acceleration);
      var limit := if dst.Length >= CompressBound(inputSize) then NotLimited else LimitedOutput;
      var tableType := if inputSize < LZ4_64KLIMIT then ByU16 else ByU32;
      PrepareTable(inputSize, tableType);
      dictionary := 0;
      var issue := if tableType == ByU16 && currentOffset != 0 then DictSmall else NoDictIssue;
      assert Window(mem, 0, 0, source, inputSize) == mem[source..source + inputSize];
      TableIsUsable(mem[source..source + inputSize], tableType, WithPrefix, issue, hash);
      result, b := CompressGeneric(mem, source, inputSize, dst, limit, tableType, WithPrefix, issue, hash, acc);
    }

    /** What the next block may refer to: drops a tiny history that does not precede
        the block, and the part of the history that the block overwrites. */
    method ChooseHistory(source: nat, inputSize: nat) returns (directive: DictDirective, issue: DictIssue)
      requires Valid() && inputSize <= MAX_INPUT_SIZE && currentOffset <= 0x8000_0000
      modifies this`currentOffset, this`dictSize, this`dictionary, hashTable
      ensures Valid() && currentOffset + inputSize <= 0x8000_0000
      ensures dictSize <= old(dictSize) && (dictSize == 0 || dictionary + dictSize == old(dictionary) + old(dictSize))
      ensures dictSize != 0 || dictionary == source || dictionary <= old(dictionary) + old(dictSize)
      ensures dictSize != 0 && dictionary < source + inputSize ==> dictionary + dictSize <= source + inputSize
      ensures directive == WithPrefix ==> dictionary + dictSize == source
      ensures directive == ExtDict && inputSize != 0 ==> dictionary + dictSize != source || dictSize == 0
      ensures directive == ExtDict && inputSize != 0 ==> dictSize == 0 || MINMATCH <= dictSize
      ensures issue == if dictSize < KB64 && dictSize < currentOffset then DictSmall else NoDictIssue
      ensures MINMATCH <= old(dictSize) && !(old(dictionary) < source + inputSize < old(dictionary) + old(dictSize)) ==>
        dictSize == old(dictSize) || KB64 <= dictSize
      ensures SameDistances(old(hashTable[..]), old(currentOffset), hashTable[..], currentOffset)
      ensures old(currentOffset) + inputSize <= 0x8000_0000 ==>
        currentOffset == old(currentOffset) && dictSize == Kept(old(dictionary), old(dictSize), source, inputSize)
    {
      Renorm(inputSize);
      var dictEnd: int := if dictSize != 0 then dictionary + dictSize else -1;
      if dictSize < 4 && dictEnd != source && inputSize > 0 {
        dictSize, dictionary, dictEnd := 0, source, source;
      }
      var sourceEnd := source + inputSize;
      if dictionary < sourceEnd < dictEnd {
        dictSize := dictEnd - sourceEnd;
        if dictSize > KB64 { dictSize := KB64; }
        if dictSize < 4 { dictSize := 0; }
        dictionary := dictEnd - dictSize;
      }
      directive := if dictEnd == source then WithPrefix else ExtDict;
      issue := if dictSize < KB64 && dictSize < currentOffset then DictSmall else NoDictIssue;
    }

    /** LZ4_compress_fast_continue without an attached dictionary: compresses the block
        at `source` as the continuation of the stream.  Matches reach back to the
        `histSize` bytes at `hist`, a final part of the previous history that the
        block does not overwrite. */
    method CompressFastContinue(mem: seq<byte>, source: nat, inputSize: nat, dst: array<byte>, hash: Hash, acceleration: int)
      returns (result: nat, ghost b: Block, ghost hist: nat, ghost histSize: nat)
      requires Valid() && HashOk(hash, hashTable.Length) && dst as object != hashTable
      requires dictionary + dictSize <= |mem| && source + inputSize <= |mem| && inputSize <= MAX_INPUT_SIZE
      requires currentOffset <= 0x8000_0000 && (tableState == Cleared || tableState == Used(ByU32))
      modifies this, hashTable, dst
      ensures Valid() && currentOffset <= 0x8000_0000 && (tableState == Cleared || tableState == Used(ByU32))
      ensures inputSize != 0 ==> Ready(true)
      ensures result == 0 ==> dst.Length < CompressBound(inputSize)
      ensures histSize <= old(dictSize) && hist + histSize <= |mem|
      ensures 0 < result ==>
        && result <= dst.Length
        && IsBlockOf(Window(mem, hist, histSize, source, inputSize), histSize, inputSize, dst[..result], b)
      ensures inputSize != 0 ==>
        var w := Window(mem, hist, histSize, source, inputSize);
        if result == 0 then NoRoomFor(hash, hashTable.Length, AccelerationOf(acceleration), w, histSize, b, dst.Length)
        else ScannedBlock(hash, hashTable.Length, AccelerationOf(acceleration), w, histSize, b)
      ensures histSize != 0 ==> hist + histSize == old(dictionary) + old(dictSize)
      ensures histSize != 0 && hist < source + inputSize ==> hist + histSize <= source + inputSize
      ensures inputSize != 0 ==>
        && dictionary + dictSize == source + inputSize
        && dictSize == if histSize != 0 && hist + histSize == source then histSize + inputSize else inputSize
      ensures MINMATCH <= old(dictSize) && !(old(dictionary) < source + inputSize < old(dictionary) + old(dictSize)) ==>
        histSize == old(dictSize) || KB64 <= histSize
      ensures 0 < result && inputSize <= MFLIMIT ==> b.sequences == []
      ensures 0 < result && inputSize > MFLIMIT ==>
        FirstBack(hash, Window(mem, hist, histSize, source, inputSize), histSize, old(hashTable[..]), old(currentOffset), b.sequences)
      ensures inputSize == MFLIMIT + 1 ==>
        IsBack(hash, Window(mem, hist, histSize, source, inputSize), histSize + 1, hashTable[..], currentOffset, MFLIMIT)
      ensures var w := Window(mem, hist, histSize, source, inputSize);
              inputSize != 0 ==>
                EntriesKept(hash, w, histSize, old(hashTable[..]), old(currentOffset), hashTable[..], currentOffset, inputSize)
      ensures old(currentOffset) + inputSize <= 0x8000_0000 ==>
        currentOffset == old(currentOffset) + inputSize && histSize == Kept(old(dictionary), old(dictSize), source, inputSize)
    {
      hide IsBlockOf, Indexed, SetupOk, Window, FirstBack, SameDistances, IsBack, EntriesKept, Kept, ScannedBlock, NoRoomFor;
      ghost var before, offset := hashTable[..], currentOffset;
      var acc := AccelerationOf(acceleration);
      var directive, issue := ChooseHistory(source, inputSize);
      hist, histSize := dictionary, dictSize;
      if inputSize != 0 {
        WindowIsOk(mem, source, inputSize, directive, issue, hash);
      }
      result, b := CompressBehind(mem, source, inputSize, dst, directive, issue, hash, acc, before, offset);
      if directive == ExtDict {
        dictionary, dictSize := source, inputSize;
      }
    }

    /** The call of LZ4_compress_generic. */
    method CompressBehind(mem: seq<byte>, source: nat, inputSize: nat, dst: array<byte>, directive: DictDirective, issue: DictIssue,
                          hash: Hash, acceleration: nat, ghost before: seq<nat>, ghost offset: nat)
      returns (result: nat, ghost b: Block)
      requires Valid() && 1 <= acceleration && dst as object != hashTable
      requires dictionary + dictSize <= |mem| && source + inputSize <= |mem| && inputSize <= MAX_INPUT_SIZE
      requires tableState == Cleared || tableState == Used(ByU32)
      requires var su := SetupFor(Window(mem, dictionary, dictSize, source, inputSize), ByU32, directive, issue, hash);
               inputSize != 0 ==> SetupOk(su) && Indexed(su, hashTable, dictSize + 1)
      requires currentOffset + inputSize <= 0x8000_0000 && SameDistances(before, offset, hashTable[..], currentOffset)
      modifies this`currentOffset, this`dictSize, this`tableState, hashTable, dst
      ensures Valid()
      ensures inputSize == 0 ==> currentOffset == old(currentOffset) && dictSize == old(dictSize) && tableState == old(tableState)
      ensures inputSize != 0 ==> currentOffset == old(currentOffset) + inputSize
      ensures inputSize != 0 ==> dictSize == old(dictSize) + inputSize && tableState == Used(ByU32)
      ensures result == 0 ==> dst.Length < CompressBound(inputSize)
      ensures var w := Window(mem, dictionary, old(dictSize), source, inputSize);
              0 < result ==> result <= dst.Length && IsBlockOf(w, old(dictSize), inputSize, dst[..result], b)
      ensures var w := Window(mem, dictionary, old(dictSize), source, inputSize);
              inputSize != 0 ==>
                if result == 0 then NoRoomFor(hash, hashTable.Length, acceleration, w, old(dictSize), b, dst.Length)
                else ScannedBlock(hash, hashTable.Length, acceleration, w, old(dictSize), b)
      ensures 0 < result && inputSize <= MFLIMIT ==> b.sequences == []
      ensures var w := Window(mem, dictionary, old(dictSize), source, inputSize);
              0 < result && inputSize > MFLIMIT ==> FirstBack(hash, w, old(dictSize), before, offset, b.sequences)
      ensures var w := Window(mem, dictionary, old(dictSize), source, inputSize);
              inputSize == MFLIMIT + 1 ==> IsBack(hash, w, old(dictSize) + 1, hashTable[..], currentOffset, MFLIMIT)
      ensures var w := Window(mem, dictionary, old(dictSize), source, inputSize);
              inputSize != 0 ==> EntriesKept(hash, w, old(dictSize), before, offset, hashTable[..], currentOffset, inputSize)
    {
      hide IsBlockOf, Indexed, SetupOk, Window, FirstSearch, FirstBack, SameDistances, IsBack, Stored, UnhitKept, EntriesKept, ScannedBlock, NoRoomFor;
      ghost var after, offset' := hashTable[..], currentOffset;
      ghost var su := SetupFor(Window(mem, dictionary, dictSize, source, inputSize), ByU32, directive, issue, hash);
      result, b := CompressGeneric(mem, source, inputSize, dst, LimitedOutput, ByU32, directive, issue, hash, acceleration);
      if inputSize > MFLIMIT {
        if 0 < result { FirstIsInReach(su, hash, before, offset, after, offset', b.sequences); }
        if inputSize == MFLIMIT + 1 { EntryIsBack(su, hash, hashTable[..], currentOffset); }
      }
      if inputSize != 0 { OthersAreKept(su, hash, before, offset, after, offset', hashTable[..], currentOffset); }
    }

    /** Entries that neither the renormalisation nor the block changed. */
    lemma OthersAreKept(su: Setup, hash: Hash, before: seq<nat>, offset: nat, mid: seq<nat>, offset': nat, after: seq<nat>, offset'': nat)
      requires su.hash == Buckets(hash, su.buf) && su.start <= |su.buf| && offset'' == offset' + (|su.buf| - su.start)
      requires SameDistances(before, offset, mid, offset') && UnhitKept(su, mid, after)
      ensures EntriesKept(hash, su.buf, su.start, before, offset, after, offset'', |su.buf| - su.start)
    {
      forall h | 0 <= h < |before| && Unhashed(hash, su.buf, su.start, h) ensures Unhit(su, h) {
      }
    }

    /** The search of `su`, told by distances. */
    lemma FirstIsInReach(su: Setup, hash: Hash, before: seq<nat>, offset: nat, after: seq<nat>, offset': nat, ss: seq<Sequence>)
      requires su.tableType == ByU32 && su.hash == Buckets(hash, su.buf) && su.start + su.shift == offset'
      requires SameDistances(before, offset, after, offset') && FirstSearch(su, after, ss)
      ensures FirstBack(hash, su.buf, su.start, before, offset, ss)
    {
      hide BeginsWith;
    }

    lemma EntryIsBack(su: Setup, hash: Hash, table: seq<nat>, offset: nat)
      requires su.tableType == ByU32 && su.hash == Buckets(hash, su.buf) && su.start + MFLIMIT + 1 == |su.buf| && |su.buf| + su.shift == offset
      requires offset < 0x1_0000_0000 && su.hash(su.start + 1) < |table| && table[su.hash(su.start + 1)] == Stored(su, su.start + 1)
      ensures IsBack(hash, su.buf, su.start + 1, table, offset, MFLIMIT)
    {
    }

    lemma WindowIsOk(mem: seq<byte>, source: nat, inputSize: nat, directive: DictDirective, issue: DictIssue, hash: Hash)
      requires Valid() && HashOk(hash, hashTable.Length)
      requires dictionary + dictSize <= |mem| && source + inputSize <= |mem| && currentOffset + inputSize <= 0x8000_0000
      requires directive == ExtDict ==> dictSize == 0 || MINMATCH <= dictSize
      requires issue == NoDictIssue ==> KB64 <= dictSize || dictSize == currentOffset
      ensures var su := SetupFor(Window(mem, dictionary, dictSize, source, inputSize), ByU32, directive, issue, hash);
              SetupOk(su) && Indexed(su, hashTable, dictSize + 1)
    {
      TableIsUsable(Window(mem, dictionary, dictSize, source, inputSize), ByU32, directive, issue, hash);
    }

    /** Every third position of a dictionary is indexed. */
    method IndexThirds(lo: nat, end: nat, hash: nat -> nat)
      requires (forall p :: hash(p) < hashTable.Length) && forall h :: 0 <= h < hashTable.Length ==> hashTable[h] == 0
      requires lo + 8 <= end <= lo + KB64
      modifies hashTable
      ensures EveryThird(hash, lo, (end - lo - 5) / 3, end, hashTable[..])
      ensures forall h :: 0 <= h < hashTable.Length ==> hashTable[h] == 0 || hashTable[h] + MINMATCH <= KB64
    {
      hide EveryThird, Third;
      var p := lo;
      ghost var n: nat := 0;
      NoThird(hash, lo, end, hashTable[..]);
      ThirdIs(lo, 0);
      while p + 8 <= end
        invariant p == Third(lo, n) && EveryThird(hash, lo, n, end, hashTable[..])
        invariant p + 5 <= end <= p + KB64
        invariant forall h :: 0 <= h < hashTable.Length ==> hashTable[h] == 0 || hashTable[h] + MINMATCH <= KB64
      {
        ThirdIs(lo, n);
        OneMoreThird(hash, lo, n, end, hashTable[..]);
        hashTable[hash(p)] := p + KB64 - end;
        p, n := p + 3, n + 1;
      }
      ThirdIs(lo, n);
      LastThird(end - lo, n);
    }

    /** LZ4_loadDict: a fresh stream whose history is the last 64 KB of a dictionary,
        with every third position indexed. */
    method LoadDict(dict: nat, size: nat, hash: nat -> nat) returns (loaded: nat)
      requires Valid() && forall p :: hash(p) < hashTable.Length
      modifies this, hashTable
      ensures Valid() && loaded == dictSize && currentOffset == KB64
      ensures tableState == Cleared || tableState == Used(ByU32)
      ensures loaded == if size < 8 then 0 else if size > KB64 then KB64 else size
      ensures 8 <= size ==> dictionary + dictSize == dict + size && EveryThird(hash, dictionary, (dictSize - 5) / 3, dict + size, hashTable[..])
      ensures size < 8 ==> forall h :: 0 <= h < hashTable.Length ==> hashTable[h] == 0
    {
      hide EveryThird;
      forall i | 0 <= i < hashTable.Length { hashTable[i] := 0; }
      currentOffset, tableState, dictionary, dictSize := KB64, Cleared, 0, 0;
      if size < 8 { return 0; }
      var dictEnd := dict + size;
      var p := if size > KB64 then dictEnd - KB64 else dict;
      dictionary, dictSize, tableState := p, dictEnd - p, Used(ByU32);
      IndexThirds(p, dictEnd, hash);
      loaded := dictSize;
    }

    /** LZ4_saveDict: the last `size` bytes of the history are moved to `safe`. */
    method SaveDict(mem: array<byte>, safe: nat, size: nat) returns (saved: nat)
      requires Valid() && mem as object != hashTable
      requires dictionary + dictSize <= mem.Length && safe + (if size > KB64 then KB64 else size) <= mem.Length
      modifies this`dictionary, this`dictSize, mem
      ensures Valid() && dictionary == safe && dictSize == saved
      ensures saved <= old(dictSize) && saved <= size && saved <= KB64
      ensures saved == old(dictSize) || saved == size || saved == KB64
      ensures mem[safe..safe + saved] == old(mem[dictionary + dictSize - saved..dictionary + dictSize])
      ensures forall i :: 0 <= i < mem.Length && !(safe <= i < safe + saved) ==> mem[i] == old(mem[i])
    {
      saved := size;
      if saved > KB64 { saved := KB64; }
      if saved > dictSize { saved := dictSize; }
      var from := dictionary + dictSize - saved;
      MoveBytes(mem, safe, from, saved);
      dictionary, dictSize := safe, saved;
    }
  }
}
