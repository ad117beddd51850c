/** Copies that overshoot too far.

    For blocks of any source the library asks for a receiver's ring of 65536 + 14 bytes and
    a message.  That leaves 15 bytes between the end of a copy and the farthest byte a
    match may refer to; copies that overshoot further destroy what is still needed.

    For blocks of this library's compressor a receiver's ring that is larger than the
    sender's by one message leaves 13 bytes: the first match after a wrap may refer to the
    byte behind the message, and twelve bytes follow its start.
 */
module RingOvershoot {
  import opened Basics
  import opened BlockFormat
  import opened SourceParse
  import opened MatchCount
  import opened DecoderSpec
  import opened FastTable
  import opened FastCompressor
  import opened FastStream
  import opened RingBuffer
  import opened RingLimits

  // ----- Blocks of any source -----

  /** A match of the largest offset at once, then 14 literals. */
  const FAR: Block := Block([Sequence([], DISTANCE_MAX, 4)], Constant(0, 14))

  /** A full lap in a ring of that size. */
  const FULL_LAP: nat := 65536 + 14

  lemma FarStands(text: seq<byte>)
    requires DISTANCE_MAX <= |text|
    ensures var message := Content(text, FAR);
            Stands(text, message, EncodeBlock(FAR), FAR) && |message| == 18 && message[0] == text[|text| - DISTANCE_MAX]
  {
    hide EncodeBlock, ParseBlock, Constant;
    var ss := FAR.sequences;
    assert ss[..|ss| - 1] == [] && ss[0].literals == [] && text + [] == text && |FAR.last| == 14;
    assert ValidSequences(text, ss[..|ss| - 1]) && Replay(text, ss[..|ss| - 1]) == text;
    assert ValidSequences(text, ss);
    CopyMatchAt(text, DISTANCE_MAX, 4, |text|);
    EncodedIsDecodable(text, FAR);
  }

  lemma AllOfText(z: Sizes, text: seq<byte>, message: seq<byte>, bytes: seq<byte>, b: Block)
    requires 1 <= |message| <= z.message && Stands(text, message, bytes, b)
    ensures Sent(z, text, message, bytes, |text|, b)
  {
    hide Stands;
    assert Last(text, |text|) == text;
  }

  lemma LiteralsOnly(text: seq<byte>, message: seq<byte>)
    ensures Stands(text, message, EncodeBlock(Block([], message)), Block([], message))
  {
    hide EncodeBlock, ParseBlock;
    EncodedIsDecodable(text, Block([], message));
    assert text[|text|..] + message == message;
  }

  lemma AnotherMessage(maxBlockSize: nat, blocks: seq<seq<byte>>, messages: seq<seq<byte>>, bs: seq<Block>,
                       bytes: seq<byte>, message: seq<byte>, b: Block)
    requires FromAnySource(maxBlockSize, blocks, messages, bs)
    requires 1 <= |message| <= maxBlockSize && Stands(Joined(messages), message, bytes, b)
    ensures FromAnySource(maxBlockSize, blocks + [bytes], messages + [message], bs + [b])
    ensures Joined(messages + [message]) == Joined(messages) + message
  {
    hide Stands;
    var all := messages + [message];
    assert all[..|messages|] == messages;
    forall i | 0 <= i < |messages| ensures all[..i] == messages[..i] {
    }
  }

  /** A lap of equal bytes, in blocks without matches: they come out. */
  method FillWith(x: byte, maxBlockSize: nat, overshoot: nat, sd: StreamDecode, ring: array<byte>, litter: Litter)
    returns (blocks: seq<seq<byte>>, out: seq<seq<byte>>, ghost bs: seq<Block>)
    requires 1 <= maxBlockSize && LitterOk(AnySourceSizes(maxBlockSize, overshoot), litter)
    requires ReceiverOk(AnySourceSizes(maxBlockSize, overshoot), sd, ring[..], 0, []) && sd.prefixEnd == 0
    modifies sd, ring
    ensures FromAnySource(maxBlockSize, blocks, out, bs) && Joined(out) == Constant(x, FULL_LAP)
    ensures ReceiverOk(AnySourceSizes(maxBlockSize, overshoot), sd, ring[..], 0, Joined(out)) && sd.prefixEnd == FULL_LAP
  {
    hide FromAnySource, Joined, Stands, Sent, LitterOk, EncodeBlock, ReceiverOk, Constant;
    var z := AnySourceSizes(maxBlockSize, overshoot);
    var at, filled, message := 0, 0, [];
    blocks, out, bs := [], [], [];
    NothingYet(maxBlockSize, x);
    while filled < FULL_LAP
      invariant filled <= FULL_LAP && FromAnySource(maxBlockSize, blocks, out, bs)
      invariant Joined(out) == Constant(x, filled) && ReceiverOk(z, sd, ring[..], at, Joined(out))
      invariant sd.prefixEnd == filled && at == if filled == FULL_LAP then 0 else filled
    {
      var n := Min(maxBlockSize, FULL_LAP - filled);
      var literals := Constant(x, n);
      var b := Block([], literals);
      LiteralsOnly(Joined(out), literals);
      AllOfText(z, Joined(out), literals, EncodeBlock(b), b);
      message, at := Receive(z, sd, ring, at, EncodeBlock(b), litter, Joined(out), literals, |Joined(out)|, b);
      AnotherMessage(maxBlockSize, blocks, out, bs, EncodeBlock(b), literals, b);
      MoreOfTheSame(x, filled, n);
      blocks, out, bs := blocks + [EncodeBlock(b)], out + [message], bs + [b];
      filled := filled + n;
    }
  }

  lemma NothingYet(maxBlockSize: nat, x: byte)
    ensures FromAnySource(maxBlockSize, [], [], []) && Joined([]) == Constant(x, 0) == []
  {
  }

  lemma MoreOfTheSame(x: byte, m: nat, n: nat)
    ensures Constant(x, m) + Constant(x, n) == Constant(x, m + n)
  {
  }

  /** When the copy of no literals that FAR starts with leaves 16 bytes of the block behind
      it, there are blocks that a ring of LZ4_DECODER_RING_BUFFER_SIZE bytes does not decode:
      the text differs from `y`, the byte left where the match starts. */
  method FailingSource(maxBlockSize: nat, overshoot: nat, litter: Litter, y: byte)
    returns (blocks: seq<seq<byte>>, out: seq<seq<byte>>, messages: seq<seq<byte>>, ghost bs: seq<Block>)
    requires 18 <= maxBlockSize && LitterOk(AnySourceSizes(maxBlockSize, overshoot), litter)
    requires forall c: Copy :: c.bytes == EncodeBlock(FAR) && c.number == 0 ==> 16 <= litter.length(c) && litter.content(c, 15) == y
    ensures FromAnySource(maxBlockSize, blocks, messages, bs) && |out| == |messages| && out != messages
  {
    hide FromAnySource, Joined, Stands, Sent, LitterOk, EncodeBlock, Content, ReceiverOk, Constant;
    var z := AnySourceSizes(maxBlockSize, overshoot);
    var sd := new StreamDecode();
    var ring := new byte[z.decodeRing](_ => 0);
    var x: byte := if y == 0 then 1 else 0;
    ReceiverStarts(z, sd, ring[..]);
    blocks, out, bs := FillWith(x, maxBlockSize, overshoot, sd, ring, litter);
    var text, wrong := Joined(out), Content(Joined(out), FAR);
    FarStands(text);
    AllOfText(z, text, wrong, EncodeBlock(FAR), FAR);
    PrefixIsLap(z, sd, ring[..], text);
    var message, at := Receive(z, sd, ring, 0, EncodeBlock(FAR), litter, text, wrong, |text|, FAR);
    AnotherMessage(maxBlockSize, blocks, out, bs, EncodeBlock(FAR), wrong, FAR);
    messages := out + [wrong];
    blocks, out, bs := blocks + [EncodeBlock(FAR)], out + [message], bs + [FAR];
    assert out[|out| - 1][0] != messages[|messages| - 1][0];
  }

  lemma PrefixIsLap(z: Sizes, sd: StreamDecode, ring: seq<byte>, text: seq<byte>)
    requires ReceiverOk(z, sd, ring, 0, text)
    ensures sd.prefixSize == sd.prefixEnd
  {
  }

  // ----- Blocks of this library -----

  /** Rings of the documented sizes in which copies overshoot too far, but by less than a
      message. */
  predicate TooFar(z: Sizes) {
    && SenderSizesOk(z) && 25 <= z.message && 2 * z.message < z.ring <= 0x1_0000
    && z.ring + z.message <= z.decodeRing && z.overshoot < z.message && !SizesOk(z)
  }

  /** The rings of the example program are among them if copies overshoot by 14 bytes. */
  lemma ExampleIsTooFar(overshoot: nat)
    requires 14 <= overshoot < 1024
    ensures TooFar(Sizes(1024, 1024 * 8 + 1024, 1024 * 8 + 1024 + 1024, overshoot))
  {
  }

  /** The entry in bucket `h` lies `back` bytes before the next message. */
  ghost predicate Tracked(stream: Stream, h: nat, back: nat)
    reads stream, stream.hashTable
  {
    h < stream.hashTable.Length && stream.hashTable[h] + back == stream.currentOffset
  }

  /** Sender and receiver between two messages. */
  ghost predicate Going(z: Sizes, stream: Stream, ring: seq<byte>, at: nat, sd: StreamDecode, decodeRing: seq<byte>, decodeAt: nat,
                        text: seq<byte>, lap: nat)
    reads stream, stream.hashTable, sd
  {
    && SenderOk(z, stream, ring, at, text) && ReceiverOk(z, sd, decodeRing, decodeAt, text)
    && LapAt(sd, decodeAt) == lap && stream.currentOffset == |text|
  }

  lemma ZerosAreUnhashed(h: WordHash, w: seq<byte>, reach: nat, n: nat)
    requires reach + n == |w| && w[reach..] == Constant(0, n) && h(ZEROS) != h(WORD1)
    ensures Unhashed(HashOfFive(h), w, reach, h(WORD1))
  {
    forall p | reach <= p && p + MFLIMIT <= |w| ensures HashOfFive(h)(w, p) == h(ZEROS) {
      SliceOfSlice(w, reach, |w|, p - reach, p - reach + 5);
      assert w[reach..|w|] == Constant(0, n);
      assert w[p..p + 5] == ZEROS;
    }
  }

  /** A message of zeros goes through both rings, and other buckets keep their entries. */
  method ExchangeZeros(z: Sizes, stream: Stream, ring: array<byte>, at: nat, sd: StreamDecode, decodeRing: array<byte>, decodeAt: nat,
                       n: nat, h: WordHash, litter: Litter, ghost text: seq<byte>, ghost lap: nat, ghost back: nat)
    returns (out: seq<byte>, at': nat, decodeAt': nat)
    requires TooFar(z) && 1 <= n <= z.message && |text| + n <= 0x8000_0000
    requires ring as object != stream.hashTable && decodeRing != ring && decodeRing as object != stream.hashTable
    requires Going(z, stream, ring[..], at, sd, decodeRing[..], decodeAt, text, lap) && WillBeReadable(z, stream.dictSize, lap, n)
    requires HashOk(HashOfFive(h), stream.hashTable.Length) && LitterOk(z, litter) && h(ZEROS) != h(WORD1) && back <= DISTANCE_MAX
    modifies stream, stream.hashTable, ring, sd, decodeRing
    ensures out == Constant(0, n)
    ensures at' == if at + n >= z.ring - z.message then 0 else at + n
    ensures decodeAt' == if decodeAt + n >= z.decodeRing - z.message then 0 else decodeAt + n
    ensures Going(z, stream, ring[..], at', sd, decodeRing[..], decodeAt', text + Constant(0, n),
                  if decodeAt' == 0 then decodeAt + n else lap)
    ensures sd.prefixSize == sd.prefixEnd == decodeAt + n
    ensures stream.dictionary + stream.dictSize == at + n
    ensures stream.dictSize == if old(stream.dictionary) + old(stream.dictSize) == at then old(stream.dictSize) + n else n
    ensures old(Tracked(stream, h(WORD1), back)) ==> Tracked(stream, h(WORD1), back + n)
  {
    hide SenderOk, ReceiverOk, LitterOk, HashOk, HashOfFive, Constant, Searched, WillBeReadable, Last;
    ghost var reach, b;
    ghost var before, offset := stream.hashTable[..], stream.currentOffset;
    RingRoundTrips(z, stream, at);
    out, at', decodeAt', reach, b := Exchange(z, stream, ring, at, sd, decodeRing, decodeAt, Constant(0, n), HashOfFive(h), litter, text);
    EntryStays(h, Last(text, reach) + Constant(0, n), reach, n, before, offset, stream.hashTable[..], stream.currentOffset, b, back);
  }

  lemma RingRoundTrips(z: Sizes, stream: Stream, at: nat)
    requires TooFar(z)
    ensures NotCovered(z, stream, at) && RoundTrips(z)
  {
  }

  lemma EntryStays(h: WordHash, w: seq<byte>, reach: nat, n: nat, before: seq<nat>, offset: nat, after: seq<nat>, offset': nat,
                   b: Block, back: nat)
    requires Searched(HashOfFive(h), w, reach, n, before, offset, after, offset', b)
    requires reach + n == |w| && w[reach..] == Constant(0, n) && h(ZEROS) != h(WORD1) && back <= DISTANCE_MAX
    ensures h(WORD1) < |before| && before[h(WORD1)] + back == offset ==> h(WORD1) < |after| && after[h(WORD1)] + back + n == offset'
  {
    hide Unhashed, HashOfFive, Constant, FirstBack, IsBack;
    ZerosAreUnhashed(h, w, reach, n);
  }

  /** How many bytes the receiver's laps have. */
  function LapSize(z: Sizes): int { z.decodeRing - z.message }

  /** The stream's history is all of the sender's lap. */
  ghost predicate Straight(stream: Stream, at: nat)
    reads stream
  {
    stream.dictionary == 0 && stream.dictSize == at
  }

  /** Zeros in messages that are too short for the table, up to `target`. */
  method SmallZeros(z: Sizes, stream: Stream, ring: array<byte>, at0: nat, target: nat,
                    sd: StreamDecode, decodeRing: array<byte>, decodeAt0: nat, h: WordHash, litter: Litter, ghost text: seq<byte>, ghost lap0: nat, ghost back: nat)
    returns (out: seq<seq<byte>>, decodeAt: nat, ghost lap: nat)
    requires TooFar(z) && at0 <= target < z.ring - z.message && decodeAt0 < LapSize(z) && decodeAt0 + (target - at0) <= LapSize(z)
    requires ring as object != stream.hashTable && decodeRing != ring && decodeRing as object != stream.hashTable
    requires Going(z, stream, ring[..], at0, sd, decodeRing[..], decodeAt0, text, lap0) && Straight(stream, at0)
    requires HashOk(HashOfFive(h), stream.hashTable.Length) && LitterOk(z, litter) && h(ZEROS) != h(WORD1)
    requires back + (target - at0) <= DISTANCE_MAX && |text| + (target - at0) <= 0x8000_0000
    modifies stream, stream.hashTable, ring, sd, decodeRing
    ensures Messages(z, out)
    ensures decodeAt == if decodeAt0 + (target - at0) == LapSize(z) then 0 else decodeAt0 + (target - at0)
    ensures lap == if decodeAt0 + (target - at0) == LapSize(z) then LapSize(z) else lap0
    ensures Going(z, stream, ring[..], target, sd, decodeRing[..], decodeAt, text + Constant(0, target - at0), lap)
    ensures Straight(stream, target)
    ensures old(Tracked(stream, h(WORD1), back)) ==> Tracked(stream, h(WORD1), back + (target - at0))
  {
    hide Going, LitterOk, HashOk, HashOfFive, Constant, Tracked, TooFar;
    var at := at0;
    out, decodeAt, lap := [], decodeAt0, lap0;
    NoMoreZeros(text);
    while at < target
      invariant at0 <= at <= target && Messages(z, out) && Straight(stream, at)
      invariant decodeAt == if decodeAt0 + (at - at0) == LapSize(z) then 0 else decodeAt0 + (at - at0)
      invariant lap == if decodeAt0 + (at - at0) == LapSize(z) then LapSize(z) else lap0
      invariant Going(z, stream, ring[..], at, sd, decodeRing[..], decodeAt, text + Constant(0, at - at0), lap)
      invariant old(Tracked(stream, h(WORD1), back)) ==> Tracked(stream, h(WORD1), back + (at - at0))
    {
      var n, message := Min(MFLIMIT, target - at), [];
      SmallFits(z, n);
      ghost var lap1 := lap;
      message, at, decodeAt := ExchangeZeros(z, stream, ring, at, sd, decodeRing, decodeAt, n, h, litter,
                                             text + Constant(0, at - at0), lap, back + (at - at0));
      MoreZeros(text, at - n - at0, n);
      lap := if decodeAt == 0 then LapSize(z) else lap1;
      out := out + [message];
    }
  }

  lemma SmallFits(z: Sizes, n: nat)
    requires TooFar(z) && n <= MFLIMIT
    ensures n <= z.message && 25 <= z.message
  {
  }

  lemma NoMoreZeros(text: seq<byte>)
    ensures text + Constant(0, 0) == text
  {
  }

  lemma MoreZeros(text: seq<byte>, m: nat, n: nat)
    ensures text + Constant(0, m) + Constant(0, n) == text + Constant(0, m + n)
  {
  }

  /** Where the receiver's first lap ends in the sender's second one. */
  function Cut(z: Sizes): int {
    if LapSize(z) - z.ring + 1 <= 25 then 25 else LapSize(z) - z.ring + 1
  }

  lemma CutFits(z: Sizes)
    requires TooFar(z)
    ensures 25 <= Cut(z) <= z.message && LapSize(z) - z.ring < Cut(z) <= LapSize(z) - z.ring + z.message
    ensures z.message < z.ring - z.message && z.ring <= LapSize(z) && z.ring <= 0x1_0000
    ensures LapSize(z) - z.ring + 13 < z.overshoot < z.message
  {
  }

  /** The sender's first lap, of zeros; the receiver has room for some more. */
  method LapOfZeros(z: Sizes, stream: Stream, ring: array<byte>, sd: StreamDecode, decodeRing: array<byte>,
                    h: WordHash, litter: Litter)
    returns (out: seq<seq<byte>>)
    requires TooFar(z) && ring as object != stream.hashTable && decodeRing != ring && decodeRing as object != stream.hashTable
    requires Going(z, stream, ring[..], 0, sd, decodeRing[..], 0, [], 0) && Straight(stream, 0)
    requires HashOk(HashOfFive(h), stream.hashTable.Length) && LitterOk(z, litter) && h(ZEROS) != h(WORD1)
    modifies stream, stream.hashTable, ring, sd, decodeRing
    ensures Messages(z, out) && 0 <= LapSize(z) - Cut(z)
    ensures Going(z, stream, ring[..], 0, sd, decodeRing[..], LapSize(z) - Cut(z), Constant(0, LapSize(z) - Cut(z)), 0)
    ensures stream.dictionary + stream.dictSize == LapSize(z) - Cut(z)
  {
    hide Going, LitterOk, HashOk, HashOfFive, Constant, TooFar, Cut, Tracked;
    CutFits(z);
    var target := z.ring - z.message - 1;
    var decodeAt, message, at;
    ghost var lap;
    out, decodeAt, lap := SmallZeros(z, stream, ring, 0, target, sd, decodeRing, 0, h, litter, [], 0, 0);
    var n := LapSize(z) - Cut(z) - target;
    message, at, decodeAt := ExchangeZeros(z, stream, ring, target, sd, decodeRing, decodeAt, n, h, litter, [] + Constant(0, target), 0, 0);
    MoreZeros([], target, n);
    NothingBefore(Constant(0, target + n));
    out := out + [message];
  }

  lemma NothingBefore(x: seq<byte>)
    ensures [] + x == x
  {
  }

  /** FIRST behind twelve bytes: its second position is entered. */
  method ExchangeFirst(z: Sizes, stream: Stream, ring: array<byte>, sd: StreamDecode, decodeRing: array<byte>, decodeAt: nat,
                       h: WordHash, litter: Litter, ghost text: seq<byte>)
    returns (out: seq<byte>, decodeAt': nat)
    requires TooFar(z) && |text| <= 0x1000_0000 && decodeAt + SHORTEST <= LapSize(z)
    requires ring as object != stream.hashTable && decodeRing != ring && decodeRing as object != stream.hashTable
    requires Going(z, stream, ring[..], 12, sd, decodeRing[..], decodeAt, text, 0) && Straight(stream, 12)
    requires HashOk(HashOfFive(h), stream.hashTable.Length) && LitterOk(z, litter)
    modifies stream, stream.hashTable, ring, sd, decodeRing
    ensures out == FIRST && decodeAt' == if decodeAt + SHORTEST == LapSize(z) then 0 else decodeAt + SHORTEST
    ensures Going(z, stream, ring[..], 25, sd, decodeRing[..], decodeAt', text + FIRST, if decodeAt' == 0 then LapSize(z) else 0)
    ensures Straight(stream, 25) && Tracked(stream, h(WORD1), MFLIMIT)
  {
    hide SenderOk, ReceiverOk, LitterOk, HashOk, HashOfFive, Searched, WillBeReadable, Last;
    ghost var reach, b, at;
    ghost var before, offset := stream.hashTable[..], stream.currentOffset;
    RingRoundTrips(z, stream, 12);
    FirstLapIsReadable(z, stream.dictSize);
    out, at, decodeAt', reach, b := Exchange(z, stream, ring, 12, sd, decodeRing, decodeAt, FIRST, HashOfFive(h), litter, text);
    EntryOfFirst(h, Last(text, reach) + FIRST, reach, before, offset, stream.hashTable[..], stream.currentOffset, b);
  }

  lemma FirstLapIsReadable(z: Sizes, dictSize: nat)
    ensures WillBeReadable(z, dictSize, 0, SHORTEST)
  {
  }

  lemma EntryOfFirst(h: WordHash, w: seq<byte>, reach: nat, before: seq<nat>, offset: nat, after: seq<nat>, offset': nat, b: Block)
    requires Searched(HashOfFive(h), w, reach, SHORTEST, before, offset, after, offset', b)
    requires reach + SHORTEST == |w| && w[reach..] == FIRST
    ensures h(WORD1) < |after| && after[h(WORD1)] + MFLIMIT == offset'
  {
    hide FirstBack, EntriesKept;
    SliceOfSlice(w, reach, |w|, 1, 6);
    FirstWords();
    assert w[reach..|w|] == FIRST;
  }

  /** The sender's second lap: twelve zeros, FIRST, and zeros until the receiver's first lap
      is over. */
  method StartSecondLap(z: Sizes, stream: Stream, ring: array<byte>, sd: StreamDecode, decodeRing: array<byte>,
                        h: WordHash, litter: Litter, ghost text: seq<byte>)
    returns (out: seq<seq<byte>>)
    requires TooFar(z) && ring as object != stream.hashTable && decodeRing != ring && decodeRing as object != stream.hashTable
    requires |text| == LapSize(z) - Cut(z)
    requires Going(z, stream, ring[..], 0, sd, decodeRing[..], |text|, text, 0) && stream.dictionary + stream.dictSize == |text| != 0
    requires HashOk(HashOfFive(h), stream.hashTable.Length) && LitterOk(z, litter) && h(ZEROS) != h(WORD1)
    modifies stream, stream.hashTable, ring, sd, decodeRing
    ensures Messages(z, out)
    ensures Going(z, stream, ring[..], Cut(z), sd, decodeRing[..], 0, text + Constant(0, 12) + FIRST + Constant(0, Cut(z) - 25), LapSize(z))
    ensures Straight(stream, Cut(z)) && Tracked(stream, h(WORD1), Cut(z) - 13)
  {
    hide Going, LitterOk, HashOk, HashOfFive, Constant, TooFar, Cut, Tracked;
    CutFits(z);
    var at, decodeAt, message, more := 0, 0, [], [];
    message, at, decodeAt := ExchangeZeros(z, stream, ring, 0, sd, decodeRing, LapSize(z) - Cut(z), 12, h, litter, text, 0, 0);
    out := [message];
    message, decodeAt := ExchangeFirst(z, stream, ring, sd, decodeRing, decodeAt, h, litter, text + Constant(0, 12));
    out := out + [message];
    ghost var lap := if decodeAt == 0 then LapSize(z) else 0;
    more, decodeAt, lap := SmallZeros(z, stream, ring, 25, Cut(z), sd, decodeRing, decodeAt, h, litter,
                                      text + Constant(0, 12) + FIRST, lap, 12);
    out := out + more;
  }

  /** ... and until one byte of the ring is left. */
  method EndSecondLap(z: Sizes, stream: Stream, ring: array<byte>, sd: StreamDecode, decodeRing: array<byte>,
                      h: WordHash, litter: Litter, ghost text: seq<byte>)
    returns (out: seq<seq<byte>>)
    requires TooFar(z) && ring as object != stream.hashTable && decodeRing != ring && decodeRing as object != stream.hashTable
    requires Going(z, stream, ring[..], Cut(z), sd, decodeRing[..], 0, text + Constant(0, Cut(z) - 25), LapSize(z)) && |text| <= 0x2_0000
    requires Straight(stream, Cut(z)) && Tracked(stream, h(WORD1), Cut(z) - 13)
    requires HashOk(HashOfFive(h), stream.hashTable.Length) && LitterOk(z, litter) && h(ZEROS) != h(WORD1)
    modifies stream, stream.hashTable, ring, sd, decodeRing
    ensures Messages(z, out) && 26 <= z.ring && Cut(z) < z.ring - 1
    ensures Going(z, stream, ring[..], 0, sd, decodeRing[..], z.ring - 1 - Cut(z), text + Constant(0, z.ring - 26), LapSize(z))
    ensures Straight(stream, z.ring - 1) && Tracked(stream, h(WORD1), z.ring - 14)
  {
    hide Going, LitterOk, HashOk, HashOfFive, Constant, TooFar, Cut, Tracked;
    CutFits(z);
    var at, target, decodeAt, message := 0, z.ring - z.message - 1, 0, [];
    ghost var k, lap := Cut(z) - 25, 0;
    out, decodeAt, lap := SmallZeros(z, stream, ring, Cut(z), target, sd, decodeRing, 0, h, litter,
                                     text + Constant(0, k), LapSize(z), 12 + k);
    MoreZeros(text, k, target - Cut(z));
    message, at, decodeAt := ExchangeZeros(z, stream, ring, target, sd, decodeRing, decodeAt, z.message, h, litter,
                                           text + Constant(0, target - 25), lap, 12 + (target - 25));
    out := out + [message];
    MoreZeros(text, target - 25, z.message);
  }

  // ----- The message that is misread -----

  /** The bytes behind FIRST's first byte, and FIRST again. */
  lemma SecondFirst(x: seq<byte>, n: nat, w: seq<byte>)
    requires w == Last(x + FIRST + Constant(0, n), n + 12) + FIRST
    ensures w[0..4] == w[n + 13..n + 17] && w[n + 13..n + 18] == WORD1 && w[n + 12..n + 17] == WORD2
  {
    var y := Last(x + FIRST + Constant(0, n), n + 12);
    assert y[0] == y[1] == y[2] == y[3] == 1;
  }

  /** FIRST at the wrap finds the one before as far back as a match can be. */
  lemma FoundFarBack(h: WordHash, x: seq<byte>, n: nat, w: seq<byte>, before: seq<nat>, offset: nat,
                     after: seq<nat>, offset': nat, bytes: seq<byte>, b: Block)
    requires w == Last(x + FIRST + Constant(0, n), n + 12) + FIRST && n + 13 < DISTANCE_MAX && h(WORD1) != h(WORD2)
    requires Searched(HashOfFive(h), w, n + 12, SHORTEST, before, offset, after, offset', b)
    requires h(WORD1) < |before| && before[h(WORD1)] + n + 12 == offset
    requires Stands(Last(x + FIRST + Constant(0, n), n + 12), FIRST, bytes, b)
    ensures b.sequences != [] && b.sequences[0].offset == n + 13 && |b.sequences[0].literals| == 1
  {
    hide Last, Stands, EntriesKept, IsBack, CannotGrow, Constant;
    SecondFirst(x, n, w);
    assert Repeated(w, n + 12, n + 13);
    FirstOffset(Last(x + FIRST + Constant(0, n), n + 12), FIRST, bytes, b);
  }

  lemma FirstOffset(hist: seq<byte>, message: seq<byte>, bytes: seq<byte>, b: Block)
    requires Stands(hist, message, bytes, b) && b.sequences != []
    ensures b.sequences[0].offset <= |hist| + |b.sequences[0].literals|
  {
    hide ParseBlock, ValidBlock, Replay;
    SequenceSent(hist, b, 0, |hist| + |message|);
    NoSequences(hist, b.sequences);
  }

  /** Copies that leave zeros. */
  function ZeroLitter(n: nat): Litter {
    Litter((_: Copy) => n, (_: Copy, _: nat) => 0)
  }

  /** The first byte of its match comes from what the copy of the literal left there. */
  method MisreadFirst(z: Sizes, stream: Stream, ring: array<byte>, sd: StreamDecode, decodeRing: array<byte>,
                      h: WordHash, ghost x: seq<byte>)
    returns (out: seq<byte>)
    requires TooFar(z) && ring as object != stream.hashTable && decodeRing != ring && decodeRing as object != stream.hashTable
    requires 26 <= z.ring && Cut(z) < z.ring - 1 && |x| <= 0x2_0000
    requires Going(z, stream, ring[..], 0, sd, decodeRing[..], z.ring - 1 - Cut(z), x + FIRST + Constant(0, z.ring - 26), LapSize(z))
    requires Straight(stream, z.ring - 1) && Tracked(stream, h(WORD1), z.ring - 14)
    requires HashOk(HashOfFive(h), stream.hashTable.Length) && h(WORD1) != h(WORD2)
    modifies stream, stream.hashTable, ring, sd, decodeRing
    ensures |out| == SHORTEST && out[1] == 0
  {
    hide SenderOk, ReceiverOk, HashOk, HashOfFive, Constant, Searched, Last, Stands, OffsetsWithin, Readable, TooFar, RoundTrips, Misread;
    CutFits(z);
    RingRoundTrips(z, stream, 0);
    ghost var text := x + FIRST + Constant(0, z.ring - 26);
    ghost var before, offset, lap := stream.hashTable[..], stream.currentOffset, decodeRing[..];
    var bytes, at, decodeAt;
    ghost var reach, b;
    bytes, at, reach, b := Send(z, stream, ring, 0, FIRST, HashOfFive(h), text);
    assert decodeRing[..] == lap;
    PrefixOfLap(z, sd, decodeRing[..], z.ring - 1 - Cut(z), text);
    FoundFarBack(h, x, z.ring - 26, Last(text, reach) + FIRST, before, offset, stream.hashTable[..], stream.currentOffset, bytes, b);
    OffsetsWithinMore(b, LargestOffset(z), LapSize(z));
    out, decodeAt := Receive(z, sd, decodeRing, z.ring - 1 - Cut(z), bytes, ZeroLitter(z.overshoot), text, FIRST, reach, b);
    MisreadIsZero(z, z.ring - 1 - Cut(z), bytes, out[1]);
  }

  lemma PrefixOfLap(z: Sizes, sd: StreamDecode, ring: seq<byte>, d: nat, text: seq<byte>)
    requires ReceiverOk(z, sd, ring, d, text) && 0 < d < 65535 && LapAt(sd, d) == LapSize(z) != 0
    ensures MemoryAt(sd, d) == Memory(0, LapSize(z), LapSize(z))
  {
    hide RingOk;
  }

  lemma MisreadIsZero(z: Sizes, d: nat, bytes: seq<byte>, x: byte)
    requires TooFar(z) && d == z.ring - 1 - Cut(z) && 0 <= LapSize(z)
    requires Misread(Memory(0, LapSize(z), LapSize(z)), d + 1, d + z.message, z.ring - 13, bytes, ZeroLitter(z.overshoot), x)
    ensures x == 0
  {
    CutFits(z);
  }

  /** When copies overshoot further than SizesOk allows for, messages exist that do not come
      out of a receiver's ring of the documented size, if copies leave zeros. */
  method FailingOvershoot(z: Sizes, h: WordHash, size: nat) returns (messages: seq<seq<byte>>, out: seq<seq<byte>>)
    requires TooFar(z) && (forall x :: h(x) < size) && h(WORD1) != h(WORD2) && h(ZEROS) != h(WORD1)
    ensures Messages(z, messages) && |out| == |messages| && out != messages
  {
    hide Going, HashOk, HashOfFive, Constant, TooFar, Cut, Tracked, LitterOk, Stream.Valid;
    HashFits(h, size);
    CutFits(z);
    var litter := ZeroLitter(z.overshoot);
    var stream := new Stream(size);
    var sd := new StreamDecode();
    var ring := new byte[z.ring](_ => 0);
    var decodeRing := new byte[z.decodeRing](_ => 0);
    StartGoing(z, stream, ring[..], sd, decodeRing[..]);
    messages := LapOfZeros(z, stream, ring, sd, decodeRing, h, litter);
    ghost var x := Constant(0, LapSize(z) - Cut(z));
    var more := StartSecondLap(z, stream, ring, sd, decodeRing, h, litter, x);
    messages := messages + more;
    more := EndSecondLap(z, stream, ring, sd, decodeRing, h, litter, x + Constant(0, 12) + FIRST);
    messages := messages + more;
    var last := MisreadFirst(z, stream, ring, sd, decodeRing, h, x + Constant(0, 12));
    messages, out := messages + [FIRST], messages + [last];
    assert messages[|messages| - 1][1] != out[|out| - 1][1];
  }

  lemma StartGoing(z: Sizes, stream: Stream, ring: seq<byte>, sd: StreamDecode, decodeRing: seq<byte>)
    requires TooFar(z) && stream.Valid() && stream.currentOffset == 0 && stream.tableState == Cleared
    requires stream.dictionary == 0 && stream.dictSize == 0 && |ring| == z.ring && |decodeRing| == z.decodeRing
    requires sd.prefixSize == 0 && sd.prefixEnd == 0 && sd.externalDict == 0 && sd.extDictSize == 0
    ensures Going(z, stream, ring, 0, sd, decodeRing, 0, [], 0) && LitterOk(z, ZeroLitter(z.overshoot))
  {
    hide Stream.Valid;
    SenderStarts(z, stream, ring);
    ReceiverStarts(z, sd, decodeRing);
  }
}
