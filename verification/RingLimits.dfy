/** Where the round trip through two rings ends.

    The library allows a sender's ring of any size when the receiver's is larger by one
    message.  With messages of 13 bytes or more and a ring of at most two of them, a
    message can cover the whole history; LZ4_compress_fast_continue notices a message that
    ends inside the history, but not one that ends where the history ends.  The stale
    entry of the hash table then finds the message in itself, and the receiver, whose ring
    still holds the covered bytes, copies those.
 */
module RingLimits {
  import opened Basics
  import opened BlockFormat
  import opened SourceParse
  import opened MatchCount
  import opened DecoderSpec
  import opened FastTable
  import opened FastCompressor
  import opened FastStream
  import opened RingBuffer

  // ----- The hash function -----

  type WordHash = seq<byte> -> nat

  /** A hash function of the five bytes at a position, as LZ4_hash5 is, or of fewer. */
  function HashOfFive(h: WordHash): Hash {
    (window: seq<byte>, p: nat) => if p + 5 <= |window| then h(window[p..p + 5]) else h([])
  }

  lemma HashFits(h: WordHash, size: nat)
    requires forall x :: h(x) < size
    ensures HashOk(HashOfFive(h), size)
  {
  }

  const WORD1: seq<byte> := [1, 1, 1, 1, 1]
  const WORD2: seq<byte> := [2, 1, 1, 1, 1]
  const ZEROS: seq<byte> := [0, 0, 0, 0, 0]

  /** LZ4_hash5 with LZ4_HASHLOG 12, on a little-endian machine. */
  function Hash5(w: seq<byte>): (h: nat)
    ensures h < 4096
  {
    if |w| != 5 then 0
    else
      var sequence := w[0] as nat + 0x100 * w[1] as nat + 0x1_0000 * w[2] as nat + 0x100_0000 * w[3] as nat + 0x1_0000_0000 * w[4] as nat;
      sequence * 0x100_0000 * 889523592379 % TWO64 / 0x10_0000_0000_0000
  }

  /** The hash by its quotients. */
  lemma Hash5Is(w: seq<byte>, n: nat, q: nat, h: nat, s: nat)
    requires |w| == 5 && n == w[0] as nat + 0x100 * w[1] as nat + 0x1_0000 * w[2] as nat + 0x100_0000 * w[3] as nat + 0x1_0000_0000 * w[4] as nat
    requires n * 0x100_0000 * 889523592379 == q * TWO64 + h * 0x10_0000_0000_0000 + s && h < 4096 && s < 0x10_0000_0000_0000
    ensures Hash5(w) == h
  {
    Remainder64(n * 0x100_0000 * 889523592379, q, h * 0x10_0000_0000_0000 + s);
    Quotient52(h * 0x10_0000_0000_0000 + s, h, s);
  }

  lemma Remainder64(x: nat, q: nat, r: nat)
    requires x == q * TWO64 + r && r < TWO64
    ensures x % TWO64 == r
  {
  }

  lemma Quotient52(x: nat, q: nat, r: nat)
    requires x == q * 0x10_0000_0000_0000 + r && r < 0x10_0000_0000_0000
    ensures x / 0x10_0000_0000_0000 == q
  {
  }

  lemma Hash5Separates()
    ensures Hash5(WORD1) != Hash5(WORD2) && Hash5(ZEROS) != Hash5(WORD1)
  {
    hide Hash5;
    Hash5Is(WORD1, 4311810305, 3488327813, 1015, 93010654134272);
    Hash5Is(WORD2, 4311810306, 3488327814, 232, 3396891614117888);
    Hash5Is(ZEROS, 0, 0, 0, 0);
  }

  // ----- The messages -----

  /** The receiver's ring is larger by one message and by what copies overshoot. */
  predicate DocumentedSizes(z: Sizes) {
    SenderSizesOk(z) && z.ring + z.message + z.overshoot <= z.decodeRing
  }

  /** The length of the shortest block that may have a match. */
  const SHORTEST: nat := MFLIMIT + 1

  /** 13 bytes whose second position is entered in the bucket of WORD1. */
  const FIRST: seq<byte> := [2, 1, 1, 1, 1, 1, 0, 0, 0, 0, 0, 0, 0]

  lemma FirstWords()
    ensures FIRST[1..6] == WORD1 && FIRST[0..5] == WORD2
  {
  }

  function Covering(n: nat): (r: seq<byte>)
    ensures |r| == n && forall i :: 0 <= i < n ==> r[i] == if i == 0 then 2 else 1
  {
    seq(n, i => if i == 0 then 2 else 1)
  }

  /** A window whose history and block are the same bytes. */
  function CoveredWindow(lap: nat, reach: nat): seq<byte>
    requires reach <= lap
  {
    Covering(lap)[lap - reach..] + Covering(lap)
  }

  function Constant(x: byte, n: nat): (r: seq<byte>)
    ensures |r| == n && forall i :: 0 <= i < n ==> r[i] == x
  {
    seq(n, _ => x)
  }

  /** Where the first lap ends. */
  function Lap(z: Sizes): (lap: nat)
    requires z.message <= z.ring
    ensures SHORTEST <= lap
  {
    if z.ring - z.message < SHORTEST then SHORTEST else z.ring - z.message
  }

  /** A lap with FIRST at its end. */
  function LapMessages(lap: nat): seq<seq<byte>>
    requires SHORTEST <= lap
  {
    if lap == SHORTEST then [FIRST] else [Constant(0, lap - SHORTEST), FIRST]
  }

  /** ... and then a message as long as the lap. */
  function FailingMessages(z: Sizes): seq<seq<byte>>
    requires z.message <= z.ring
  {
    LapMessages(Lap(z)) + [Covering(Lap(z))]
  }

  // ----- What the compressor does with the covered history -----

  /** What the window holds: the message is its own history. */
  lemma WindowIsCovered(ring: seq<byte>, hist: nat, reach: nat, lap: nat)
    requires hist + reach == lap <= |ring| && ring[0..lap] == Covering(lap)
    ensures Window(ring, hist, reach, 0, lap) == CoveredWindow(lap, reach)
  {
    assert ring[hist..hist + reach] == ring[0..lap][hist..];
  }

  /** The bytes of the covered window around the border. */
  lemma CoveredBytes(w: seq<byte>, reach: nat, lap: nat, k: int)
    requires SHORTEST <= reach <= lap && w == CoveredWindow(lap, reach)
    requires -12 <= k < lap && k != 0
    ensures w[reach + k] == 1
  {
  }

  /** The second position repeats the bytes 13 places before. */
  lemma CoveredRepeats(w: seq<byte>, reach: nat, lap: nat)
    requires SHORTEST <= reach <= lap && w == CoveredWindow(lap, reach)
    ensures Repeated(w, reach, SHORTEST)
    ensures w[reach + 1..reach + 6] == WORD1 && w[reach..reach + 5] == WORD2
  {
    hide Covering;
    FourOnes(w, reach - 12, lap, reach);
    FourOnes(w, reach + 1, lap, reach);
    CoveredBytes(w, reach, lap, 5);
    assert w[reach] == Covering(lap)[0] == 2;
    assert w[reach + 1..reach + 6] == w[reach + 1..reach + 5] + [w[reach + 5]];
    assert w[reach..reach + 5] == [w[reach]] + w[reach + 1..reach + 5];
  }

  lemma FourOnes(w: seq<byte>, at: nat, lap: nat, reach: nat)
    requires SHORTEST <= reach <= lap && w == CoveredWindow(lap, reach)
    requires at == reach - 12 || at == reach + 1
    ensures w[at..at + 4] == [1, 1, 1, 1]
  {
    var k := at - reach;
    CoveredBytes(w, reach, lap, k);
    CoveredBytes(w, reach, lap, k + 1);
    CoveredBytes(w, reach, lap, k + 2);
    CoveredBytes(w, reach, lap, k + 3);
  }

  /** The first match ends behind the seventh byte of the message. */
  lemma CoveredMatchIsLong(w: seq<byte>, reach: nat, lap: nat, s: Sequence)
    requires SHORTEST <= reach <= lap && w == CoveredWindow(lap, reach)
    requires |s.literals| <= 1 && MINMATCH <= s.matchLength
    requires CannotGrow(w, SHORTEST, reach + |s.literals| + s.matchLength)
    ensures 7 <= |s.literals| + s.matchLength
  {
    var k := |s.literals| + s.matchLength;
    if k < 7 {
      CoveredBytes(w, reach, lap, k);
      if k != SHORTEST { CoveredBytes(w, reach, lap, k - SHORTEST); }
      assert false;
    }
  }

  /** The receiver's seventh byte is copied from 13 places before it. */
  lemma SeventhByte(hist: seq<byte>, b: Block)
    requires ValidBlock(hist, b) && b.sequences != [] && SHORTEST <= |hist|
    requires var s := b.sequences[0]; s.offset == SHORTEST && |s.literals| <= 1 && 7 <= |s.literals| + s.matchLength
    ensures 7 <= |Content(hist, b)| && Content(hist, b)[6] == hist[|hist| - 7]
  {
    hide Replay, CopyMatch;
    var ss, s := b.sequences, b.sequences[0];
    assert ss == ss[..1] + ss[1..] && ss[..1][..0] == [];
    ValidAppend(hist, ss[..1], ss[1..]);
    ReplayGrows(hist, ss[..1], ss[1..]);
    OneSequence(hist, ss[..1], 0);
    NoSequences(hist, ss[..1]);
    CopyMatchAt(hist + s.literals, s.offset, s.matchLength, |hist| + 6);
    var out := CopyMatch(hist + s.literals, s.offset, s.matchLength);
    assert out[..|hist + s.literals|] == hist + s.literals;
    assert out[|hist| + 6] == out[|hist| - 7] == (hist + s.literals)[|hist| - 7];
  }

  /** Whether a block is valid depends only on the length of the history. */
  lemma {:induction false} ValidElsewhere(hist: seq<byte>, hist': seq<byte>, ss: seq<Sequence>)
    requires |hist| == |hist'| && ValidSequences(hist, ss)
    ensures ValidSequences(hist', ss) && |Replay(hist', ss)| == |Replay(hist, ss)|
  {
    if ss != [] {
      ValidElsewhere(hist, hist', ss[..|ss| - 1]);
    }
  }

  /** The first match takes four bytes, and the last one starts twelve before the end. */
  lemma OneMatchIn13(hist: seq<byte>, b: Block)
    requires ValidBlock(hist, b) && |Output(hist, b)| == |hist| + SHORTEST
    ensures |b.sequences| <= 1
  {
    hide Replay, CopyMatch;
    var ss := b.sequences;
    if 1 < |ss| {
      assert ss == ss[..1] + ss[1..];
      ValidAppend(hist, ss[..1], ss[1..]);
      ReplayGrows(hist, ss[..1], ss[1..]);
      OneSequence(hist, ss[..1], 0);
      NoSequences(hist, ss[..1]);
      FirstMatchLength(hist, ss[..1]);
      assert false;
    }
  }

  lemma FirstMatchLength(hist: seq<byte>, ss: seq<Sequence>)
    requires |ss| == 1 && ValidSequences(hist, ss)
    ensures MINMATCH <= ss[0].matchLength
  {
  }

  /** The block for the covering message is a valid block for the receiver, who reads
      another message of the same length. */
  lemma CoveredBlock(w: seq<byte>, reach: nat, lap: nat, bytes: seq<byte>, b: Block, hist: seq<byte>)
    requires SHORTEST <= reach <= lap && w == CoveredWindow(lap, reach)
    requires IsBlockOf(w, reach, lap, bytes, b) && BeginsWith(w, reach, SHORTEST, b.sequences) && |hist| == reach
    ensures var wrong := Content(hist, b);
            |wrong| == lap && Stands(hist, wrong, bytes, b) && wrong[6] == hist[reach - 7]
  {
    hide EncodeBlock, ParseBlock, Replay, CannotGrow, CoveredWindow;
    var ss := b.sequences;
    assert ss == ss[..1] + ss[1..];
    ValidAppend(w[..reach], ss[..1], ss[1..]);
    FirstMatchLength(w[..reach], ss[..1]);
    CoveredMatchIsLong(w, reach, lap, ss[0]);
    ValidElsewhere(w[..reach], hist, ss);
    SeventhByte(hist, b);
    EncodedIsDecodable(hist, b);
  }

  // ----- The run -----

  /** Why the receiver can read the block of the next message: it is in its first lap, there
      is no match, the history lies behind the output area, or the ring is large enough. */
  predicate WillBeReadable(z: Sizes, dictSize: nat, lap: nat, n: nat) {
    lap == 0 || n <= MFLIMIT || dictSize + z.message <= lap || z.ring + z.message + z.overshoot <= z.decodeRing + MFLIMIT
  }

  lemma BlockIsReadable(z: Sizes, dictSize: nat, lap: nat, n: nat, reach: nat, b: Block)
    requires z.message <= z.ring && z.ring + z.message <= z.decodeRing && (lap == 0 || z.decodeRing <= lap + z.message)
    requires WillBeReadable(z, dictSize, lap, n) && reach <= dictSize && (n <= MFLIMIT ==> b.sequences == [])
    requires MFLIMIT < z.message && OffsetsWithin(b, if RoundTrips(z) then LargestOffset(z) else z.ring - MFLIMIT)
    ensures WithinLap(lap, b) && Readable(z, lap, reach, b)
  {
  }

  /** A message goes through both rings. */
  method Exchange(z: Sizes, stream: Stream, ring: array<byte>, at: nat, sd: StreamDecode, decodeRing: array<byte>, decodeAt: nat,
                  message: seq<byte>, hash: Hash, litter: Litter, ghost text: seq<byte>)
    returns (out: seq<byte>, at': nat, decodeAt': nat, ghost reach: nat, ghost b: Block)
    requires SenderSizesOk(z) && MFLIMIT < z.message && z.ring + z.message <= z.decodeRing && 1 <= |message| <= z.message
    requires ring as object != stream.hashTable && decodeRing != ring && decodeRing as object != stream.hashTable
    requires SenderOk(z, stream, ring[..], at, text) && NotCovered(z, stream, at) && HashOk(hash, stream.hashTable.Length)
    requires ReceiverOk(z, sd, decodeRing[..], decodeAt, text) && LitterOk(z, litter)
    requires WillBeReadable(z, stream.dictSize, LapAt(sd, decodeAt), |message|)
    modifies stream, stream.hashTable, ring, sd, decodeRing
    ensures out == message
    ensures SenderOk(z, stream, ring[..], at', text + message) && ReceiverOk(z, sd, decodeRing[..], decodeAt', text + message)
    ensures at' == if at + |message| >= z.ring - z.message then 0 else at + |message|
    ensures decodeAt' == if decodeAt + |message| >= z.decodeRing - z.message then 0 else decodeAt + |message|
    ensures sd.prefixSize == sd.prefixEnd == decodeAt + |message| && sd.extDictSize == old(LapAt(sd, decodeAt))
    ensures stream.dictionary + stream.dictSize == at + |message| && |message| <= stream.dictSize && reach <= |text|
    ensures stream.dictSize == if reach != 0 && old(stream.dictionary) + old(stream.dictSize) == at then reach + |message| else |message|
    ensures Searched(hash, Last(text, reach) + message, reach, |message|, old(stream.hashTable[..]), old(stream.currentOffset),
                     stream.hashTable[..], stream.currentOffset, b)
    ensures old(stream.currentOffset) + |message| <= 0x8000_0000 ==>
      && stream.currentOffset == old(stream.currentOffset) + |message|
      && reach == Kept(old(stream.dictionary), old(stream.dictSize), at, |message|)
  {
    hide SenderOk, ReceiverOk, Stands, OffsetsWithin, Readable, WithinLap, LitterOk, Searched, Kept, Last, Misread, RoundTrips;
    var bytes;
    LapIsLong(z, sd, decodeRing[..], decodeAt, text);
    ghost var lap, dictSize, d := LapAt(sd, decodeAt), stream.dictSize, decodeRing[..];
    bytes, at', reach, b := Send(z, stream, ring, at, message, hash, text);
    assert decodeRing[..] == d;
    NoMatch(b, |message|, hash, Last(text, reach) + message, reach, old(stream.hashTable[..]), old(stream.currentOffset),
            stream.hashTable[..], stream.currentOffset);
    BlockIsReadable(z, dictSize, lap, |message|, reach, b);
    ghost var r, table := ring[..], stream.hashTable[..];
    out, decodeAt' := Receive(z, sd, decodeRing, decodeAt, bytes, litter, text, message, reach, b);
    assert ring[..] == r && stream.hashTable[..] == table;
  }

  lemma NoMatch(b: Block, n: nat, hash: Hash, w: seq<byte>, reach: nat, before: seq<nat>, offset: nat, after: seq<nat>, offset': nat)
    requires Searched(hash, w, reach, n, before, offset, after, offset', b)
    ensures n <= MFLIMIT ==> b.sequences == []
    ensures n == SHORTEST ==> IsBack(hash, w, reach + 1, after, offset', MFLIMIT)
  {
  }

  /** The stale entry of FIRST is the first candidate of the covering message. */
  lemma StaleEntry(h: WordHash, w1: seq<byte>, r1: nat, w: seq<byte>, reach: nat, table: seq<nat>, offset: nat, ss: seq<Sequence>)
    requires h(WORD1) != h(WORD2) && r1 + SHORTEST == |w1| && w1[r1..] == FIRST
    requires IsBack(HashOfFive(h), w1, r1 + 1, table, offset, MFLIMIT)
    requires FirstBack(HashOfFive(h), w, reach, table, offset, ss)
    requires Repeated(w, reach, SHORTEST) && reach + 6 <= |w|
    requires w[reach + 1..reach + 6] == WORD1 && w[reach..reach + 5] == WORD2
    ensures BeginsWith(w, reach, SHORTEST, ss)
  {
    hide BeginsWith, Repeated;
    SliceOfSlice(w1, r1, |w1|, 1, 6);
    FirstWords();
    assert w1[r1..|w1|] == FIRST;
  }

  /** The message that covers the whole history. */
  method CoverHistory(z: Sizes, stream: Stream, ring: array<byte>, lap: nat, h: WordHash, ghost w1: seq<byte>, ghost r1: nat)
    returns (bytes: seq<byte>, ghost reach: nat, ghost b: Block)
    requires SenderSizesOk(z) && SHORTEST <= lap <= z.message && ring as object != stream.hashTable && ring.Length == z.ring
    requires SenderReady(z, stream, 0) && HashOk(HashOfFive(h), stream.hashTable.Length) && h(WORD1) != h(WORD2)
    requires stream.dictionary + stream.dictSize == lap && SHORTEST <= stream.dictSize
    requires r1 + SHORTEST == |w1| && w1[r1..] == FIRST
    requires IsBack(HashOfFive(h), w1, r1 + 1, stream.hashTable[..], stream.currentOffset, MFLIMIT)
    modifies stream, stream.hashTable, ring
    ensures SHORTEST <= reach <= lap
    ensures var w := CoveredWindow(lap, reach);
            IsBlockOf(w, reach, lap, bytes, b) && BeginsWith(w, reach, SHORTEST, b.sequences)
  {
    hide IsBlockOf, SenderReady, FirstBack, IsBack, HashOfFive, HashOk, BeginsWith, Repeated, Window, Covering, CoveredWindow;
    ghost var table, offset := stream.hashTable[..], stream.currentOffset;
    ghost var hist;
    var at;
    bytes, at, hist, reach, b := CompressInRing(z, stream, ring, 0, Covering(lap), HashOfFive(h));
    WindowIsCovered(ring[..], hist, reach, lap);
    ghost var w := CoveredWindow(lap, reach);
    CoveredRepeats(w, reach, lap);
    StaleEntry(h, w1, r1, w, reach, table, offset, b.sequences);
  }

  /** It can be sent, but as another message. */
  lemma CoveredIsSent(z: Sizes, lap: nat, text: seq<byte>, bytes: seq<byte>, reach: nat, b: Block)
    requires DocumentedSizes(z) && !RoundTrips(z) && lap == Lap(z) == |text| && SHORTEST <= reach <= lap
    requires text[lap - 7] == 0
    requires var w := CoveredWindow(lap, reach);
             IsBlockOf(w, reach, lap, bytes, b) && BeginsWith(w, reach, SHORTEST, b.sequences)
    ensures var wrong := Content(Last(text, reach), b);
            |wrong| == lap && wrong[6] == 0 && Sent(z, text, wrong, bytes, reach, b) && AlwaysReadable(z, b)
  {
    hide CoveredWindow, IsBlockOf, Content, Stands, OffsetsWithin, Sent, BeginsWith, Last, RoundTrips, Lap, FailingMessages;
    var hist, w := Last(text, reach), CoveredWindow(lap, reach);
    var wrong := Content(hist, b);
    CoveredBlock(w, reach, lap, bytes, b, hist);
    StaleByte(text, reach);
    LapFits(z);
    if 2 * lap <= z.ring {
      OffsetsBounded(hist, wrong, bytes, b, z.ring);
    } else {
      ShortLap(z);
      OnlyOffset(z, hist, wrong, bytes, b, w);
    }
    OffsetsWithinMore(b, z.ring, z.decodeRing - z.message - z.overshoot);
    IsSent(z, text, wrong, bytes, reach, b);
  }

  /** What the receiver still has where the match points. */
  lemma StaleByte(text: seq<byte>, reach: nat)
    requires SHORTEST <= reach <= |text| && text[|text| - 7] == 0
    ensures Last(text, reach)[reach - 7] == 0
  {
  }

  lemma ShortLap(z: Sizes)
    requires SenderSizesOk(z) && !RoundTrips(z) && z.ring < 2 * Lap(z)
    ensures Lap(z) == SHORTEST <= z.ring
  {
  }

  lemma IsSent(z: Sizes, text: seq<byte>, message: seq<byte>, bytes: seq<byte>, reach: nat, b: Block)
    requires 1 <= |message| <= z.message && reach <= |text| && Stands(Last(text, reach), message, bytes, b)
    ensures Sent(z, text, message, bytes, reach, b)
  {
    hide Stands;
  }

  lemma OnlyOffset(z: Sizes, hist: seq<byte>, message: seq<byte>, bytes: seq<byte>, b: Block, w: seq<byte>)
    requires Stands(hist, message, bytes, b) && |message| == SHORTEST <= z.ring && BeginsWith(w, |hist|, SHORTEST, b.sequences)
    ensures OffsetsWithin(b, z.ring)
  {
    hide ParseBlock, ValidBlock, Output, CannotGrow;
    OneMatchIn13(hist, b);
  }

  /** The messages before the last one, one after the other. */
  function LapText(lap: nat): (text: seq<byte>)
    requires SHORTEST <= lap
    ensures |text| == lap && text[lap - 7] == 0
  {
    Constant(0, lap - SHORTEST) + FIRST
  }

  lemma LapFits(z: Sizes)
    requires SenderSizesOk(z) && !RoundTrips(z)
    ensures SHORTEST <= Lap(z) <= z.message && z.ring - z.message <= Lap(z)
    ensures Lap(z) != SHORTEST ==> Lap(z) == z.ring - z.message
    ensures Messages(z, FailingMessages(z)) && FailingMessages(z) == LapMessages(Lap(z)) + [Covering(Lap(z))]
  {
    hide Covering, Constant;
  }

  /** The first lap: all its messages come out. */
  method FillLap(z: Sizes, stream: Stream, ring: array<byte>, sd: StreamDecode, decodeRing: array<byte>, lap: nat, hash: Hash, litter: Litter)
    returns (out: seq<seq<byte>>, decodeAt: nat, ghost w1: seq<byte>, ghost r1: nat)
    requires DocumentedSizes(z) && SHORTEST <= lap <= z.message && z.ring - z.message <= lap
    requires lap != SHORTEST ==> lap == z.ring - z.message
    requires ring as object != stream.hashTable && decodeRing != ring && decodeRing as object != stream.hashTable
    requires SenderOk(z, stream, ring[..], 0, []) && HashOk(hash, stream.hashTable.Length) && stream.dictSize == 0
    requires ReceiverOk(z, sd, decodeRing[..], 0, []) && LitterOk(z, litter)
    modifies stream, stream.hashTable, ring, sd, decodeRing
    ensures out == LapMessages(lap)
    ensures ReceiverOk(z, sd, decodeRing[..], decodeAt, LapText(lap))
    ensures SenderReady(z, stream, 0) && stream.dictionary + stream.dictSize == lap && SHORTEST <= stream.dictSize
    ensures r1 + SHORTEST == |w1| && w1[r1..] == FIRST
    ensures IsBack(hash, w1, r1 + 1, stream.hashTable[..], stream.currentOffset, MFLIMIT)
  {
    hide SenderOk, ReceiverOk, IsBack, Constant, Last, HashOk, LitterOk, Searched, LapAt, Kept;
    var at, message := 0, [];
    out, decodeAt := [], 0;
    ghost var text, reach, b := [], 0, Block([], []);
    var filler := Constant(0, lap - SHORTEST);
    if lap != SHORTEST {
      message, at, decodeAt, reach, b := Exchange(z, stream, ring, at, sd, decodeRing, decodeAt, filler, hash, litter, text);
      text, out := text + message, [message];
    }
    assert text == filler;
    ghost var before, offset := stream.hashTable[..], stream.currentOffset;
    message, at, decodeAt, reach, b := Exchange(z, stream, ring, at, sd, decodeRing, decodeAt, FIRST, hash, litter, text);
    out := out + [message];
    SenderParts(z, stream, ring[..], at, text + FIRST);
    w1, r1 := Last(text, reach) + FIRST, reach;
    NoMatch(b, SHORTEST, hash, w1, r1, before, offset, stream.hashTable[..], stream.currentOffset);
  }

  /** In every ring of at most two messages of 13 bytes or more, these messages do not come
      out: the receiver gets a wrong last message, and no error.  The hash function only
      has to tell the two words apart. */
  method FailingRun(z: Sizes, h: WordHash, size: nat, litter: Litter) returns (out: seq<seq<byte>>)
    requires DocumentedSizes(z) && !RoundTrips(z) && LitterOk(z, litter) && (forall x :: h(x) < size) && h(WORD1) != h(WORD2)
    ensures var messages := FailingMessages(z);
            && Messages(z, messages) && |out| == |messages|
            && out[..|out| - 1] == messages[..|out| - 1] && out[|out| - 1] != messages[|out| - 1]
  {
    hide SenderOk, SenderReady, ReceiverOk, Stream.Valid, Sent, Content, IsBlockOf, BeginsWith, IsBack, Constant, Last, RoundTrips,
         FailingMessages, LapMessages, LapText, Lap, Messages, Covering, HashOfFive, HashOk, ParseBlock, LitterOk,
         AlwaysReadable, Readable, WithinLap, LapAt, Misread;
    LapFits(z);
    HashFits(h, size);
    var lap, hash := Lap(z), HashOfFive(h);
    var stream := new Stream(size);
    var sd := new StreamDecode();
    var ring := new byte[z.ring](_ => 0);
    var decodeRing := new byte[z.decodeRing](_ => 0);
    SenderStarts(z, stream, ring[..]);
    ReceiverStarts(z, sd, decodeRing[..]);
    ghost var w1, r1, reach, b;
    var decodeAt, bytes, message;
    out, decodeAt, w1, r1 := FillLap(z, stream, ring, sd, decodeRing, lap, hash, litter);
    ghost var received := decodeRing[..];
    bytes, reach, b := CoverHistory(z, stream, ring, lap, h, w1, r1);
    CoveredIsSent(z, lap, LapText(lap), bytes, reach, b);
    assert decodeRing[..] == received;
    LapIsLong(z, sd, decodeRing[..], decodeAt, LapText(lap));
    ReadableInLap(z, LapAt(sd, decodeAt), reach, b);
    ghost var wrong := Content(Last(LapText(lap), reach), b);
    message, decodeAt := Receive(z, sd, decodeRing, decodeAt, bytes, litter, LapText(lap), wrong, reach, b);
    LastIsWrong(out, message, lap);
    out := out + [message];
  }

  lemma LastIsWrong(out: seq<seq<byte>>, message: seq<byte>, lap: nat)
    requires SHORTEST <= lap == |message| && message[6] == 0 && out == LapMessages(lap)
    ensures var messages, all := LapMessages(lap) + [Covering(lap)], out + [message];
            |all| == |messages| && all[..|all| - 1] == messages[..|all| - 1] && all[|all| - 1] != messages[|all| - 1]
  {
    hide LapMessages;
    assert Covering(lap)[6] == 1;
    assert (out + [message])[..|out|] == out == (out + [Covering(lap)])[..|out|];
  }

  lemma ReceiverStarts(z: Sizes, sd: StreamDecode, ring: seq<byte>)
    requires DecodeSizesOk(z) && |ring| == z.decodeRing
    requires sd.prefixSize == 0 && sd.prefixEnd == 0 && sd.externalDict == 0 && sd.extDictSize == 0
    ensures ReceiverOk(z, sd, ring, 0, [])
  {
  }

  lemma SenderParts(z: Sizes, stream: Stream, ring: seq<byte>, at: nat, text: seq<byte>)
    requires SenderOk(z, stream, ring, at, text)
    ensures SenderReady(z, stream, at) && |ring| == z.ring
  {
  }
}
