/** Messages through two ring buffers that are not synchronised.

    The sender keeps its messages in a ring and compresses each one against what the
    ring still holds; the receiver decodes into a ring that is larger by one message.
    The two wrap around at different messages.  The receiver's copies may write some bytes
    behind their ends, where the previous lap still stands.
 */
module RingBuffer {
  import opened Basics
  import opened BlockFormat
  import opened SourceParse
  import opened DecoderSpec
  import opened FastStream

  /** No copy of the receiver writes more than `overshoot` bytes behind its end. */
  datatype Sizes = Sizes(message: nat, ring: nat, decodeRing: nat, overshoot: nat)

  /** A copy into the ring: of which block and the how-manieth, where it ends, and the ring
      when it has ended. */
  datatype Copy = Copy(bytes: seq<byte>, number: nat, end: nat, ring: seq<byte>)

  /** What copies leave behind their ends: how many bytes, and which at a position. */
  datatype Litter = Litter(length: Copy -> nat, content: (Copy, nat) -> byte)

  ghost predicate LitterOk(z: Sizes, litter: Litter) {
    forall c :: litter.length(c) <= z.overshoot
  }

  predicate DecodeSizesOk(z: Sizes) {
    1 <= z.message <= z.decodeRing
  }

  /** The sender's ring holds a message. */
  predicate SenderSizesOk(z: Sizes) {
    1 <= z.message <= z.ring && z.message <= MAX_INPUT_SIZE
  }

  /** No match goes further back: twelve bytes follow its start, and the ring is never full. */
  function LargestOffset(z: Sizes): nat {
    if z.message <= MFLIMIT then 0 else if z.ring <= 13 then 0 else Min(z.ring - 13, DISTANCE_MAX)
  }

  /** A lap of the receiver, which leaves less than a message free, is longer than the
      largest offset by what copies overshoot. */
  predicate SizesOk(z: Sizes) {
    SenderSizesOk(z) && z.message <= z.decodeRing && LargestOffset(z) + z.overshoot + z.message <= z.decodeRing
  }

  /** So the receiver's ring may be larger than the sender's by one message, as documented,
      if copies overshoot by at most 13 bytes. */
  lemma DocumentedSizesAreOk(z: Sizes)
    requires SenderSizesOk(z) && z.ring + z.message <= z.decodeRing && z.overshoot <= 13
    requires z.message <= MFLIMIT ==> z.overshoot + z.message <= z.decodeRing
    ensures SizesOk(z)
  {
  }

  /** The rings through which all messages come out as they went in: a message that is
      written after a wrap ends before the history does, or no message is long enough for
      a match. */
  predicate RoundTrips(z: Sizes) {
    2 * z.message < z.ring || z.message <= MFLIMIT
  }

  /** The sizes of the example program. */
  lemma ExampleSizes(overshoot: nat)
    requires overshoot <= 13
    ensures var z := Sizes(1024, 1024 * 8 + 1024, 1024 * 8 + 1024 + 1024, overshoot); SizesOk(z) && RoundTrips(z)
  {
  }

  /** `bytes` is a valid block, not necessarily one of this library's compressors, that
      stands for `message` behind `hist`. */
  ghost predicate Stands(hist: seq<byte>, message: seq<byte>, bytes: seq<byte>, b: Block) {
    ParseBlock(bytes) == Some(b) && ValidBlock(hist, b) && Output(hist, b) == hist + message
  }

  /** What the compressor emits stands for the message. */
  lemma CompressedStands(hist: seq<byte>, message: seq<byte>, bytes: seq<byte>, b: Block)
    requires IsBlockOf(hist + message, |hist|, |message|, bytes, b)
    ensures Stands(hist, message, bytes, b)
  {
    hide EncodeBlock, ParseBlock, ValidBlock, Content;
    var buf := hist + message;
    assert buf[..|hist|] == hist && buf[|hist|..|hist| + |message|] == message;
    EncodedIsDecodable(hist, b);
  }

  /** A block without matches needs no history. */
  lemma LiteralsStand(buf: seq<byte>, start: nat, bytes: seq<byte>, b: Block)
    requires start <= |buf| && IsBlockOf(buf, start, |buf| - start, bytes, b) && b.sequences == []
    ensures Stands([], buf[start..], bytes, b)
  {
    hide EncodeBlock, ParseBlock;
    assert [] + b.last == b.last == buf[start..|buf|];
    EncodedIsDecodable([], b);
  }

  /** `bytes` is a block for `message` behind the last bytes of `text`. */
  ghost predicate Sent(z: Sizes, text: seq<byte>, message: seq<byte>, bytes: seq<byte>, reach: nat, b: Block) {
    1 <= |message| <= z.message && reach <= |text| && Stands(Last(text, reach), message, bytes, b)
  }

  predicate OffsetsWithin(b: Block, limit: int) {
    forall i :: 0 <= i < |b.sequences| ==> b.sequences[i].offset <= limit
  }

  /** Every offset is at most the previous lap, if there is one. */
  predicate WithinLap(lap: nat, b: Block) {
    lap == 0 || OffsetsWithin(b, lap)
  }

  /** No match starts among the bytes that copies of this block leave behind their ends: it
      is further away than copies overshoot, or the history lies behind the output area. */
  predicate Readable(z: Sizes, lap: nat, reach: nat, b: Block) {
    lap == 0 || OffsetsWithin(b, lap - z.overshoot) || reach + z.message <= lap
  }

  /** Whatever the laps of the receiver, whose ends leave less than a message free. */
  predicate AlwaysReadable(z: Sizes, b: Block) {
    OffsetsWithin(b, z.decodeRing - z.message - z.overshoot)
  }

  lemma ReadableInLap(z: Sizes, lap: nat, reach: nat, b: Block)
    requires AlwaysReadable(z, b) && (lap == 0 || z.decodeRing <= lap + z.message)
    ensures WithinLap(lap, b) && Readable(z, lap, reach, b)
  {
  }

  lemma OffsetsWithinMore(b: Block, limit: int, more: int)
    requires OffsetsWithin(b, limit) && limit <= more
    ensures OffsetsWithin(b, more)
  {
  }

  /** Offsets are bounded by the format, and by what there is. */
  lemma OffsetsBounded(hist: seq<byte>, message: seq<byte>, bytes: seq<byte>, b: Block, limit: nat)
    requires Stands(hist, message, bytes, b) && (|hist| + |message| <= limit + MFLIMIT || DISTANCE_MAX <= limit)
    ensures OffsetsWithin(b, limit)
  {
    hide ParseBlock, ValidBlock, Replay;
    forall i | 0 <= i < |b.sequences| ensures b.sequences[i].offset <= limit {
      SequenceSent(hist, b, i, |hist| + |message|);
    }
  }

  // ----- The sender -----

  /** The stream can take a message of up to `z.message` bytes at `at`. */
  ghost predicate SenderReady(z: Sizes, stream: Stream, at: nat)
    reads stream, stream.hashTable
  {
    && stream.Valid() && stream.currentOffset <= 0x8000_0000
    && (stream.tableState == Cleared || stream.tableState == Used(FastTable.ByU32))
    && at + z.message <= z.ring && (at == 0 || at + z.message < z.ring) && stream.dictionary + stream.dictSize <= z.ring
  }

  /** The stream's history is the end of the text, in front of `at` or near the end of the
      ring. */
  ghost predicate HistoryInRing(z: Sizes, stream: Stream, ring: seq<byte>, at: nat, text: seq<byte>)
    reads stream
  {
    && stream.dictSize <= |text| && stream.dictionary + stream.dictSize <= |ring|
    && ring[stream.dictionary..stream.dictionary + stream.dictSize] == Last(text, stream.dictSize)
    && (stream.dictSize != 0 ==>
          || at == stream.dictionary + stream.dictSize
          || (at == 0 && z.ring <= stream.dictionary + stream.dictSize + z.message))
    && (RoundTrips(z) ==> stream.dictionary + stream.dictSize < z.ring)
  }

  ghost predicate SenderOk(z: Sizes, stream: Stream, ring: seq<byte>, at: nat, text: seq<byte>)
    reads stream, stream.hashTable
  {
    SenderReady(z, stream, at) && |ring| == z.ring && (z.message <= MFLIMIT || HistoryInRing(z, stream, ring, at, text))
  }

  /** A message at `at` does not cover the whole history. */
  predicate NotCovered(z: Sizes, stream: Stream, at: nat)
    reads stream
  {
    RoundTrips(z) || stream.dictSize == 0 || at == stream.dictionary + stream.dictSize
  }

  /** What a window of the ring holds after a message was written beside it. */
  lemma WindowIsText(ring: seq<byte>, ring': seq<byte>, at: nat, message: seq<byte>, hist: nat, histSize: nat,
                     dict: nat, dictSize: nat, text: seq<byte>)
    requires Overwritten(ring, ring', at, message)
    requires dictSize <= |text| && dict + dictSize <= |ring| && ring[dict..dict + dictSize] == Last(text, dictSize)
    requires histSize <= dictSize && hist + histSize <= |ring|
    requires histSize != 0 ==> hist + histSize == dict + dictSize && (hist + histSize <= at || at + |message| <= hist)
    ensures Window(ring', hist, histSize, at, |message|) == Last(text, histSize) + message
  {
    forall i | 0 <= i < histSize ensures ring'[hist + i] == Last(text, histSize)[i] {
      var k := dictSize - histSize + i;
      assert ring'[hist + i] == ring[dict + k] == ring[dict..dict + dictSize][k] == Last(text, dictSize)[k];
    }
    assert ring'[hist..hist + histSize] == Last(text, histSize);
  }

  /** `message` was written at `at`. */
  ghost predicate Overwritten(ring: seq<byte>, ring': seq<byte>, at: nat, message: seq<byte>) {
    && |ring'| == |ring| && at + |message| <= |ring| && ring'[at..at + |message|] == message
    && forall i :: 0 <= i < |ring| && !(at <= i < at + |message|) ==> ring'[i] == ring[i]
  }

  /** What one message does to the sender's table: its search starts with the entry in the
      bucket of its second position, the entry of that position remains if it has 13 bytes,
      and other buckets keep their entries. */
  ghost predicate Searched(hash: Hash, w: seq<byte>, reach: nat, n: nat, before: seq<nat>, offset: nat,
                           after: seq<nat>, offset': nat, b: Block) {
    && (n <= MFLIMIT ==> b.sequences == [])
    && (n > MFLIMIT ==> FirstBack(hash, w, reach, before, offset, b.sequences))
    && (n == MFLIMIT + 1 ==> IsBack(hash, w, reach + 1, after, offset', MFLIMIT))
    && EntriesKept(hash, w, reach, before, offset, after, offset', n)
  }

  /** One round of test_compress: the message is written into the ring at `at` and
      compressed behind the `reach` bytes at `hist`. */
  method CompressInRing(z: Sizes, stream: Stream, ring: array<byte>, at: nat, message: seq<byte>, hash: Hash)
    returns (bytes: seq<byte>, at': nat, ghost hist: nat, ghost reach: nat, ghost b: Block)
    requires SenderSizesOk(z) && 1 <= |message| <= z.message && ring as object != stream.hashTable && ring.Length == z.ring
    requires SenderReady(z, stream, at) && HashOk(hash, stream.hashTable.Length)
    modifies stream, stream.hashTable, ring
    ensures SenderReady(z, stream, at') && Overwritten(old(ring[..]), ring[..], at, message)
    ensures at' == if at + |message| >= z.ring - z.message then 0 else at + |message|
    ensures reach <= old(stream.dictSize) && hist + reach <= z.ring
    ensures reach != 0 ==> hist + reach == old(stream.dictionary) + old(stream.dictSize)
    ensures reach != 0 && hist < at + |message| ==> hist + reach <= at + |message|
    ensures 4 <= old(stream.dictSize) && !(old(stream.dictionary) < at + |message| < old(stream.dictionary) + old(stream.dictSize)) ==>
      reach == old(stream.dictSize) || KB64 <= reach
    ensures stream.dictionary + stream.dictSize == at + |message|
    ensures stream.dictSize == if reach != 0 && hist + reach == at then reach + |message| else |message|
    ensures var w := Window(ring[..], hist, reach, at, |message|);
            && IsBlockOf(w, reach, |message|, bytes, b) && (|message| <= MFLIMIT ==> b.sequences == [])
            && Searched(hash, w, reach, |message|, old(stream.hashTable[..]), old(stream.currentOffset),
                        stream.hashTable[..], stream.currentOffset, b)
    ensures old(stream.currentOffset) + |message| <= 0x8000_0000 ==>
      && stream.currentOffset == old(stream.currentOffset) + |message|
      && reach == Kept(old(stream.dictionary), old(stream.dictSize), at, |message|)
  {
    hide IsBlockOf, Window, Stream.Valid, FirstBack, IsBack, EntriesKept, Kept;
    ghost var table := stream.hashTable[..];
    forall i | 0 <= i < |message| { ring[at + i] := message[i]; }
    assert ring[..][at..at + |message|] == message && stream.hashTable[..] == table;
    var cmpBuf := new byte[CompressBound(z.message)];
    var cmpBytes;
    cmpBytes, b, hist, reach := stream.CompressFastContinue(ring[..], at, |message|, cmpBuf, hash, 0);
    bytes := cmpBuf[..cmpBytes];
    at' := at + |message|;
    if at' >= z.ring - z.message { at' := 0; }
  }

  /** The next message, provided that it does not cover the history. */
  method Send(z: Sizes, stream: Stream, ring: array<byte>, at: nat, message: seq<byte>, hash: Hash, ghost text: seq<byte>)
    returns (bytes: seq<byte>, at': nat, ghost reach: nat, ghost b: Block)
    requires SenderSizesOk(z) && 1 <= |message| <= z.message && ring as object != stream.hashTable
    requires SenderOk(z, stream, ring[..], at, text) && NotCovered(z, stream, at) && HashOk(hash, stream.hashTable.Length)
    modifies stream, stream.hashTable, ring
    ensures SenderOk(z, stream, ring[..], at', text + message)
    ensures Sent(z, text, message, bytes, reach, b) && OffsetsWithin(b, if RoundTrips(z) then LargestOffset(z) else z.ring - MFLIMIT)
    ensures at' == if at + |message| >= z.ring - z.message then 0 else at + |message|
    ensures stream.dictionary + stream.dictSize == at + |message| && |message| <= stream.dictSize
    ensures z.message > MFLIMIT ==>
      && reach <= old(stream.dictSize)
      && stream.dictSize == (if reach != 0 && old(stream.dictionary) + old(stream.dictSize) == at then reach + |message| else |message|)
      && Searched(hash, Last(text, reach) + message, reach, |message|, old(stream.hashTable[..]), old(stream.currentOffset),
                  stream.hashTable[..], stream.currentOffset, b)
    ensures z.message > MFLIMIT && old(stream.currentOffset) + |message| <= 0x8000_0000 ==>
      && stream.currentOffset == old(stream.currentOffset) + |message|
      && reach == Kept(old(stream.dictionary), old(stream.dictSize), at, |message|)
  {
    hide IsBlockOf, Stands, Window, Last, Stream.Valid, Searched, Kept, Overwritten, OffsetsWithin, LargestOffset, HistoryInRing;
    ghost var before, dict, dictSize := ring[..], stream.dictionary, stream.dictSize;
    HistoryParts(z, stream, before, at, text);
    ghost var hist;
    bytes, at', hist, reach, b := CompressInRing(z, stream, ring, at, message, hash);
    if z.message <= MFLIMIT {
      WithoutHistory(ring[..], hist, reach, before, at, message, bytes, b);
      reach := 0;
      NoHistory(text);
      NoOffsets(b, LargestOffset(z));
    } else {
      WindowIsText(before, ring[..], at, message, hist, reach, dict, dictSize, text);
      CompressedStands(Last(text, reach), message, bytes, b);
      OffsetsInRing(z, Last(text, reach), message, bytes, b);
      DictIsText(ring[..], at, message, hist, reach, stream.dictionary, stream.dictSize, text);
      HistoryParts(z, stream, ring[..], at', text + message);
    }
  }

  lemma HistoryParts(z: Sizes, stream: Stream, ring: seq<byte>, at: nat, text: seq<byte>)
    ensures HistoryInRing(z, stream, ring, at, text) <==>
      && stream.dictSize <= |text| && stream.dictionary + stream.dictSize <= |ring|
      && ring[stream.dictionary..stream.dictionary + stream.dictSize] == Last(text, stream.dictSize)
      && (stream.dictSize != 0 ==>
            || at == stream.dictionary + stream.dictSize
            || (at == 0 && z.ring <= stream.dictionary + stream.dictSize + z.message))
      && (RoundTrips(z) ==> stream.dictionary + stream.dictSize < z.ring)
  {
  }

  lemma OffsetsInRing(z: Sizes, hist: seq<byte>, message: seq<byte>, bytes: seq<byte>, b: Block)
    requires Stands(hist, message, bytes, b) && z.message > MFLIMIT && z.message <= z.ring
    requires |hist| + |message| + (if RoundTrips(z) then 1 else 0) <= z.ring
    ensures OffsetsWithin(b, if RoundTrips(z) then LargestOffset(z) else z.ring - MFLIMIT)
  {
    hide Stands, OffsetsWithin;
    if RoundTrips(z) {
      OffsetsBounded(hist, message, bytes, b, LargestOffset(z));
    } else {
      OffsetsBounded(hist, message, bytes, b, z.ring - MFLIMIT);
    }
  }

  lemma NoOffsets(b: Block, limit: int)
    requires b.sequences == []
    ensures OffsetsWithin(b, limit)
  {
  }

  lemma NoHistory(text: seq<byte>)
    ensures Last(text, 0) == []
  {
  }

  lemma WithoutHistory(ring: seq<byte>, hist: nat, reach: nat, before: seq<byte>, at: nat, message: seq<byte>,
                       bytes: seq<byte>, b: Block)
    requires Overwritten(before, ring, at, message) && hist + reach <= |ring| && b.sequences == []
    requires IsBlockOf(Window(ring, hist, reach, at, |message|), reach, |message|, bytes, b)
    ensures Stands([], message, bytes, b)
  {
    hide IsBlockOf, Stands;
    var w := Window(ring, hist, reach, at, |message|);
    assert w[reach..] == message;
    LiteralsStand(w, reach, bytes, b);
  }

  lemma DictIsText(ring: seq<byte>, at: nat, message: seq<byte>, hist: nat, histSize: nat, dict: nat, dictSize: nat, text: seq<byte>)
    requires at + |message| <= |ring| && histSize <= |text| && hist + histSize <= |ring|
    requires Window(ring, hist, histSize, at, |message|) == Last(text, histSize) + message
    requires dict + dictSize == at + |message|
    requires dictSize == if histSize != 0 && hist + histSize == at then histSize + |message| else |message|
    ensures dictSize <= |text + message| && ring[dict..dict + dictSize] == Last(text + message, dictSize)
  {
    var w := Window(ring, hist, histSize, at, |message|);
    assert w[histSize..] == ring[at..at + |message|] == message;
    if histSize != 0 && hist + histSize == at {
      assert ring[dict..dict + dictSize] == w;
      assert Last(text + message, dictSize) == Last(text, histSize) + message;
    } else {
      assert Last(text + message, dictSize) == message;
    }
  }

  // ----- The receiver -----

  /** The receiver's ring holds the current lap up to `e`, and behind it, from `clean` on,
      what is left of the previous lap of `lap` bytes.  Copies may have written in between. */
  ghost predicate RingOk(ring: seq<byte>, e: nat, lap: nat, clean: nat, text: seq<byte>) {
    && e <= |ring| && lap <= |ring| && e + lap <= |text|
    && (lap == 0 ==> |text| == e)
    && (forall p :: 0 <= p < e ==> ring[p] == text[|text| - e + p])
    && (forall p :: e <= p < lap && clean <= p ==> ring[p] == text[|text| - e - lap + p])
  }

  /** Where the byte `offset` places back is found: in the current lap or at the end of
      the previous one. */
  function Source(e: nat, lap: nat, offset: nat): int {
    if offset <= e then e - offset else lap - (offset - e)
  }

  /** The byte `offset` places back is where it was written. */
  lemma NotYetOverwritten(ring: seq<byte>, e: nat, lap: nat, clean: nat, text: seq<byte>, offset: nat)
    requires RingOk(ring, e, lap, clean, text) && 1 <= offset <= |text|
    requires lap == 0 || offset <= e || (e <= Source(e, lap, offset) && clean <= Source(e, lap, offset))
    ensures 0 <= Source(e, lap, offset) < |ring| && ring[Source(e, lap, offset)] == text[|text| - offset]
  {
  }

  /** Appending a byte keeps the ring in order. */
  lemma Appended(ring: seq<byte>, e: nat, lap: nat, clean: nat, text: seq<byte>, x: byte)
    requires RingOk(ring, e, lap, clean, text) && e < |ring|
    ensures RingOk(ring[e := x], e + 1, lap, clean, text + [x])
  {
  }

  lemma LessClean(ring: seq<byte>, e: nat, lap: nat, clean: nat, clean': nat, text: seq<byte>)
    requires RingOk(ring, e, lap, clean, text) && clean <= clean'
    ensures RingOk(ring, e, lap, clean', text)
  {
  }

  /** Bytes written behind the end do no harm. */
  method Overshoot(ring: array<byte>, e: nat, oend: nat, bytes: seq<byte>, number: nat, litter: Litter,
                   ghost ok: bool, ghost lap: nat, ghost w: nat, ghost clean: nat, ghost text: seq<byte>)
    requires e <= oend <= ring.Length && (forall c :: litter.length(c) <= w)
    requires clean <= Min(e + w, oend) && (ok ==> RingOk(ring[..], e, lap, clean, text))
    modifies ring
    ensures ok ==> RingOk(ring[..], e, lap, Min(e + w, oend), text)
    ensures var c := Copy(bytes, number, e, old(ring[..]));
            forall p :: 0 <= p < ring.Length ==>
              ring[p] == if e <= p < oend && p < e + litter.length(c) then litter.content(c, p) else old(ring[p])
  {
    var c := Copy(bytes, number, e, ring[..]);
    var end := Min(oend, e + litter.length(c));
    forall p | e <= p < end { ring[p] := litter.content(c, p); }
  }

  /** Nothing before `lo` changes. */
  ghost predicate FrontKept(ring: seq<byte>, ring': seq<byte>, lo: nat) {
    lo <= |ring| == |ring'| && forall p :: 0 <= p < lo ==> ring'[p] == ring[p]
  }

  /** A match, byte by byte: first from the external dictionary that ends at `extEnd`,
      then from the prefix. */
  method CopyMatchInRing(ring: array<byte>, e0: nat, lowPrefix: int, extEnd: nat, offset: nat, n: nat,
                         ghost ok: bool, ghost lap: nat, ghost clean: nat, ghost text: seq<byte>)
    returns (e: nat)
    requires e0 + n <= ring.Length && lowPrefix <= e0 && 1 <= offset && extEnd <= ring.Length
    requires if offset <= e0 - lowPrefix then offset <= e0 else 0 <= lowPrefix && offset - (e0 - lowPrefix) <= extEnd
    requires ok ==> RingOk(ring[..], e0, lap, clean, text) && offset <= |text|
    requires ok ==> lap == 0 || offset <= e0 || (e0 <= Source(e0, lap, offset) && clean <= Source(e0, lap, offset))
    requires ok ==> (offset <= e0 && offset <= e0 - lowPrefix) || (lowPrefix == 0 && extEnd == lap)
    modifies ring
    ensures e == e0 + n && FrontKept(old(ring[..]), ring[..], e0)
    ensures ok ==> RingOk(ring[..], e, lap, clean, CopyMatch(text, offset, n))
    ensures 0 < n && e0 - lowPrefix < offset ==> ring[e0] == old(ring[extEnd - (offset - (e0 - lowPrefix))])
  {
    hide RingOk, CopyMatch;
    e := e0;
    ghost var first := if e0 - lowPrefix < offset then ring[extEnd - (offset - (e0 - lowPrefix))] else 0;
    CopyMatchOfNone(text, offset);
    while e < e0 + n
      invariant e0 <= e <= e0 + n && FrontKept(old(ring[..]), ring[..], e0)
      invariant ok ==> RingOk(ring[..], e, lap, clean, CopyMatch(text, offset, e - e0))
      invariant if e == e0 then ring[..] == old(ring[..]) else e0 - lowPrefix < offset ==> ring[e0] == first
    {
      var from := if offset <= e - lowPrefix then e - offset else extEnd - (offset - (e - lowPrefix));
      if ok {
        ghost var sofar := CopyMatch(text, offset, e - e0);
        CopyMatchNext(text, offset, e - e0);
        NotYetOverwritten(ring[..], e, lap, clean, sofar, offset);
        Appended(ring[..], e, lap, clean, sofar, ring[from]);
      }
      ghost var before := ring[..];
      ring[e] := ring[from];
      assert ring[..] == before[e := before[from]];
      e := e + 1;
    }
  }

  method CopyLiteralsInRing(ring: array<byte>, e0: nat, literals: seq<byte>,
                            ghost ok: bool, ghost lap: nat, ghost clean: nat, ghost text: seq<byte>)
    returns (e: nat)
    requires e0 + |literals| <= ring.Length && (ok ==> RingOk(ring[..], e0, lap, clean, text))
    modifies ring
    ensures e == e0 + |literals| && FrontKept(old(ring[..]), ring[..], e0)
    ensures ok ==> RingOk(ring[..], e, lap, clean, text + literals)
  {
    hide RingOk;
    e := e0;
    assert text + literals[..0] == text;
    for i := 0 to |literals|
      invariant e == e0 + i && FrontKept(old(ring[..]), ring[..], e0)
      invariant ok ==> RingOk(ring[..], e, lap, clean, text + literals[..i])
    {
      if ok {
        Appended(ring[..], e, lap, clean, text + literals[..i], literals[i]);
        assert text + literals[..i] + [literals[i]] == text + literals[..i + 1];
      }
      ghost var before := ring[..];
      ring[e] := literals[i];
      assert ring[..] == before[e := literals[i]];
      e := e + 1;
    }
    assert literals[..|literals|] == literals;
  }

  /** A longer history does not change what valid sequences stand for. */
  lemma {:induction false} ReplayLonger(pre: seq<byte>, hist: seq<byte>, ss: seq<Sequence>)
    requires ValidSequences(hist, ss)
    ensures Replay(pre + hist, ss) == pre + Replay(hist, ss)
  {
    if ss != [] {
      var front, s := ss[..|ss| - 1], ss[|ss| - 1];
      ReplayLonger(pre, hist, front);
      assert (pre + Replay(hist, front)) + s.literals == pre + (Replay(hist, front) + s.literals);
      CopyMatchLonger(pre, Replay(hist, front) + s.literals, s.offset, s.matchLength);
    }
  }

  lemma {:induction false} CopyMatchLonger(pre: seq<byte>, out: seq<byte>, offset: nat, len: nat)
    requires 1 <= offset <= |out|
    ensures CopyMatch(pre + out, offset, len) == pre + CopyMatch(out, offset, len)
  {
    if len != 0 {
      CopyMatchLonger(pre, out, offset, len - 1);
      var r := CopyMatch(out, offset, len - 1);
      assert (pre + r) + [r[|r| - offset]] == pre + (r + [r[|r| - offset]]);
    }
  }

  /** The sequence at `i` of a block sent: its match stays within the reach and the
      message. */
  lemma SequenceSent(hist: seq<byte>, b: Block, i: nat, total: nat)
    requires ValidBlock(hist, b) && |Output(hist, b)| == total && i < |b.sequences|
    ensures var s, out := b.sequences[i], Replay(hist, b.sequences[..i]);
            && 1 <= s.offset <= DISTANCE_MAX && s.offset <= |out| + |s.literals|
            && |out| + |s.literals| + s.matchLength <= total && |out| + |s.literals| + MFLIMIT <= total
            && Replay(hist, b.sequences[..i + 1]) == CopyMatch(out + s.literals, s.offset, s.matchLength)
  {
    hide Replay;
    var ss := b.sequences;
    assert ss == ss[..i + 1] + ss[i + 1..];
    ValidAppend(hist, ss[..i + 1], ss[i + 1..]);
    ReplayGrows(hist, ss[..i + 1], ss[i + 1..]);
    OneSequence(hist, ss[..i + 1], i);
    assert ss[..i + 1][..i] == ss[..i];
  }

  lemma OneSequence(hist: seq<byte>, ss: seq<Sequence>, i: nat)
    requires |ss| == i + 1 && ValidSequences(hist, ss)
    ensures var s, out := ss[i], Replay(hist, ss[..i]);
            && 1 <= s.offset <= DISTANCE_MAX && s.offset <= |out| + |s.literals|
            && Replay(hist, ss) == CopyMatch(out + s.literals, s.offset, s.matchLength)
  {
  }

  /** The decoder's view of its memory: the prefix starts at `lowPrefix`, the external
      dictionary of `extSize` bytes ends at `extEnd`. */
  datatype Memory = Memory(lowPrefix: int, extEnd: nat, extSize: nat)

  predicate MemoryOk(m: Memory, e: nat, lap: nat) {
    && m.lowPrefix <= e
    && (m == Memory(0, lap, lap) || (m.extEnd == m.extSize == 0 && m.lowPrefix + DISTANCE_MAX <= e && DISTANCE_MAX <= e))
  }

  /** The place in the external dictionary where a match at `e` starts. */
  function ExternalSource(m: Memory, e: nat, offset: nat): int {
    m.extEnd - (offset - (e - m.lowPrefix))
  }

  /** The first byte of a match at `e` where the first copy of the block has just ended: `x`
      is what that copy left where the match starts. */
  ghost predicate Misread(m: Memory, e: nat, oend: nat, offset: nat, bytes: seq<byte>, litter: Litter, x: byte) {
    var from := ExternalSource(m, e, offset);
    exists c: Copy :: c.bytes == bytes && c.number == 0 && c.end == e
      && (e - m.lowPrefix < offset && e <= from < oend && from < e + litter.length(c) ==> x == litter.content(c, from))
  }

  /** A match of that offset at `e` starts neither among what this copy or one before leaves
      behind its end, nor, with a previous lap, outside of it. */
  predicate ClearAt(e: nat, oend: nat, lap: nat, w: nat, offset: nat) {
    lap == 0 || offset <= e || (e <= Source(e, lap, offset) && Min(e + w, oend) <= Source(e, lap, offset))
  }

  /** One sequence into the ring; `ok` unless it passes the area's end or its offset
      leaves the history. */
  method DecodeSequence(ring: array<byte>, m: Memory, oend: nat, e0: nat, s: Sequence, bytes: seq<byte>, number: nat, litter: Litter,
                        ghost clear: bool, ghost lap: nat, ghost w: nat, ghost text: seq<byte>)
    returns (ok: bool, e: nat)
    requires e0 <= oend <= ring.Length && lap <= ring.Length && MemoryOk(m, e0, lap) && forall c :: litter.length(c) <= w
    requires 1 <= s.offset <= DISTANCE_MAX && 0 < s.matchLength
    requires clear ==> RingOk(ring[..], e0, lap, Min(e0 + w, oend), text) && s.offset <= |text| + |s.literals|
    requires clear ==> ClearAt(e0 + |s.literals|, oend, lap, w, s.offset)
    modifies ring
    ensures ok == (e0 + |s.literals| + s.matchLength <= oend && s.offset <= e0 + |s.literals| - m.lowPrefix + m.extSize)
    ensures FrontKept(old(ring[..]), ring[..], e0)
    ensures ok ==> e == e0 + |s.literals| + s.matchLength
    ensures ok && clear ==> RingOk(ring[..], e, lap, Min(e + w, oend), CopyMatch(text + s.literals, s.offset, s.matchLength))
    ensures ok && number == 0 ==> Misread(m, e0 + |s.literals|, oend, s.offset, bytes, litter, ring[e0 + |s.literals|])
  {
    hide RingOk, CopyMatch;
    ok, e := false, e0;
    if e + |s.literals| > oend { return; }
    e := CopyLiteralsInRing(ring, e, s.literals, clear, lap, Min(e0 + w, oend), text);
    var e1 := e;
    ghost var c := Copy(bytes, number, e, ring[..]);
    Overshoot(ring, e, oend, bytes, number, litter, clear, lap, w, Min(e0 + w, oend), text + s.literals);
    if e + s.matchLength > oend { return; }
    if s.offset > e - m.lowPrefix + m.extSize { return; }
    e := CopyMatchInRing(ring, e, m.lowPrefix, m.extEnd, s.offset, s.matchLength, clear, lap, Min(e1 + w, oend), text + s.literals);
    assert number == 0 ==> c.bytes == bytes && c.number == 0 && c.end == e1;
    Overshoot(ring, e, oend, bytes, number + 1, litter, clear, lap, w, Min(e1 + w, oend),
              CopyMatch(text + s.literals, s.offset, s.matchLength));
    ok := true;
  }

  /** Where the first match of a block at `dest` is written. */
  function FirstMatchAt(dest: nat, b: Block): nat
    requires b.sequences != []
  {
    dest + |b.sequences[0].literals|
  }

  /** LZ4_decompress_generic: parses the block and decodes it at `dest`.  Every match of a
      block that is readable copies the right bytes. */
  method DecodeInRing(z: Sizes, ring: array<byte>, m: Memory, dest: nat, bytes: seq<byte>, oend: nat, litter: Litter,
                      ghost lap: nat, ghost text: seq<byte>, ghost message: seq<byte>, ghost reach: nat, ghost b: Block)
    returns (r: int)
    requires Sent(z, text, message, bytes, reach, b) && WithinLap(lap, b) && LitterOk(z, litter)
    requires RingOk(ring[..], dest, lap, Min(dest + z.overshoot, oend), text) && MemoryOk(m, dest, lap)
    requires oend == dest + z.message <= ring.Length
    modifies ring
    ensures r == |message| && (b.sequences != [] ==> FirstMatchAt(dest, b) < dest + |message|)
    ensures Readable(z, lap, reach, b) ==> RingOk(ring[..], dest + |message|, lap, Min(dest + |message| + z.overshoot, oend), text + message)
    ensures b.sequences != [] ==>
      Misread(m, FirstMatchAt(dest, b), oend, b.sequences[0].offset, bytes, litter, ring[FirstMatchAt(dest, b)])
  {
    hide RingOk, Replay, CopyMatch, ParseBlock, ValidBlock, Stands, Misread, Readable, WithinLap, ClearAt, MemoryOk, LitterOk,
         Last, Before, Output;
    MessageDecodes(z, text, message, bytes, reach, b);
    ghost var hist, pre, clear := Last(text, reach), Before(text, reach), Readable(z, lap, reach, b);
    BeforeAndLast(text, reach, message);
    FirstLap(ring[..], dest, lap, Min(dest + z.overshoot, oend), text);
    var block := ParseBlock(bytes).value;
    var e := dest;
    NoSequences(hist, block.sequences);
    ghost var first, offset := dest, 0;
    if b.sequences != [] { first, offset := FirstMatchAt(dest, b), b.sequences[0].offset; }
    for i := 0 to |block.sequences|
      invariant dest <= e <= oend && e - dest == |Replay(hist, block.sequences[..i])| - reach
      invariant clear ==> RingOk(ring[..], e, lap, Min(e + z.overshoot, oend), pre + Replay(hist, block.sequences[..i]))
      invariant 0 < i ==> first < e && Misread(m, first, oend, offset, bytes, litter, ring[first])
    {
      ghost var out := Replay(hist, block.sequences[..i]);
      var s := block.sequences[i];
      SequenceSent(hist, b, i, reach + |message|);
      OffsetInLap(z, b, i, lap, reach, dest, e + |s.literals|);
      ghost var before := ring[..];
      e := DecodeNext(z, ring, m, dest, oend, e, s, bytes, 2 * i, litter, clear, lap, pre + out);
      assert 0 < i ==> ring[first] == before[first];
      ThreeParts(pre, out, s.literals);
      CopyMatchLonger(pre, out + s.literals, s.offset, s.matchLength);
    }
    assert block.sequences[..|block.sequences|] == block.sequences;
    OutputParts(hist, b);
    e := DecodeLast(z, ring, oend, e, block.last, clear, lap, pre + Replay(hist, b.sequences), first);
    ThreeParts(pre, Replay(hist, b.sequences), b.last);
    r := e - dest;
  }

  function Before(text: seq<byte>, n: nat): seq<byte>
    requires n <= |text|
  {
    text[..|text| - n]
  }

  lemma BeforeAndLast(text: seq<byte>, n: nat, message: seq<byte>)
    requires n <= |text|
    ensures Before(text, n) + Last(text, n) == text && Before(text, n) + (Last(text, n) + message) == text + message
    ensures |Before(text, n)| + n == |text|
  {
  }

  lemma ThreeParts(a: seq<byte>, b: seq<byte>, c: seq<byte>)
    ensures (a + b) + c == a + (b + c)
  {
  }

  lemma OutputParts(hist: seq<byte>, b: Block)
    ensures Output(hist, b) == Replay(hist, b.sequences) + b.last
  {
  }

  /** A sequence that is known to fit. */
  method DecodeNext(z: Sizes, ring: array<byte>, m: Memory, dest: nat, oend: nat, e0: nat, s: Sequence, bytes: seq<byte>, number: nat,
                    litter: Litter, ghost clear: bool, ghost lap: nat, ghost text: seq<byte>)
    returns (e: nat)
    requires LitterOk(z, litter) && MemoryOk(m, dest, lap) && dest <= e0 <= oend <= ring.Length && lap <= ring.Length
    requires 1 <= s.offset <= DISTANCE_MAX && 0 < s.matchLength && e0 + |s.literals| + s.matchLength <= oend
    requires lap == 0 ==> s.offset <= e0 + |s.literals|
    requires lap == 0 || s.offset <= lap
    requires clear ==> RingOk(ring[..], e0, lap, Min(e0 + z.overshoot, oend), text) && s.offset <= |text| + |s.literals|
    requires clear ==> ClearAt(e0 + |s.literals|, oend, lap, z.overshoot, s.offset)
    modifies ring
    ensures FrontKept(old(ring[..]), ring[..], e0) && e == e0 + |s.literals| + s.matchLength
    ensures clear ==> RingOk(ring[..], e, lap, Min(e + z.overshoot, oend), CopyMatch(text + s.literals, s.offset, s.matchLength))
    ensures number == 0 ==> Misread(m, e0 + |s.literals|, oend, s.offset, bytes, litter, ring[e0 + |s.literals|])
  {
    hide RingOk, CopyMatch, Misread, ClearAt;
    var ok;
    ok, e := DecodeSequence(ring, m, oend, e0, s, bytes, number, litter, clear, lap, z.overshoot, text);
    if !ok { assert false; }
  }

  method DecodeLast(z: Sizes, ring: array<byte>, ghost oend: nat, e0: nat, literals: seq<byte>,
                    ghost clear: bool, ghost lap: nat, ghost text: seq<byte>, ghost first: nat)
    returns (e: nat)
    requires e0 + |literals| <= oend <= ring.Length && (clear ==> RingOk(ring[..], e0, lap, Min(e0 + z.overshoot, oend), text))
    modifies ring
    ensures e == e0 + |literals| && (first < e0 ==> ring[first] == old(ring[first]))
    ensures clear ==> RingOk(ring[..], e, lap, Min(e + z.overshoot, oend), text + literals)
  {
    hide RingOk;
    e := CopyLiteralsInRing(ring, e0, literals, clear, lap, Min(e0 + z.overshoot, oend), text);
    if clear { LessClean(ring[..], e, lap, Min(e0 + z.overshoot, oend), Min(e + z.overshoot, oend), text + literals); }
  }

  /** The offset at `e`, which is at most the history and what is decoded already. */
  lemma OffsetInLap(z: Sizes, b: Block, i: nat, lap: nat, reach: nat, dest: nat, e: nat)
    requires i < |b.sequences| && WithinLap(lap, b) && dest <= e && b.sequences[i].offset <= reach + (e - dest)
    ensures lap == 0 || b.sequences[i].offset <= lap
    ensures Readable(z, lap, reach, b) ==> ClearAt(e, dest + z.message, lap, z.overshoot, b.sequences[i].offset)
  {
  }

  lemma FirstLap(ring: seq<byte>, e: nat, lap: nat, clean: nat, text: seq<byte>)
    requires RingOk(ring, e, lap, clean, text)
    ensures lap <= |ring| && e + lap <= |text| && (lap == 0 ==> |text| == e)
  {
  }

  lemma NoSequences(hist: seq<byte>, ss: seq<Sequence>)
    ensures Replay(hist, ss[..0]) == hist
  {
  }

  lemma MessageDecodes(z: Sizes, text: seq<byte>, message: seq<byte>, bytes: seq<byte>, reach: nat, b: Block)
    requires Sent(z, text, message, bytes, reach, b)
    ensures var hist := Last(text, reach);
            ParseBlock(bytes) == Some(b) && ValidBlock(hist, b) && Output(hist, b) == hist + message
  {
    hide ParseBlock, ValidBlock, Output;
  }

  /** LZ4_streamDecode_t; addresses are positions in the ring. */
  class StreamDecode {
    var prefixSize: nat
    var prefixEnd: nat
    var externalDict: nat
    var extDictSize: nat

    constructor ()
      ensures prefixSize == 0 && prefixEnd == 0 && externalDict == 0 && extDictSize == 0
    {
      prefixSize, prefixEnd, externalDict, extDictSize := 0, 0, 0, 0;
    }
  }

  /** The current lap is the prefix, the previous one the external dictionary. */
  ghost predicate ReceiverOk(z: Sizes, sd: StreamDecode, ring: seq<byte>, at: nat, text: seq<byte>)
    reads sd
  {
    && |ring| == z.decodeRing && sd.prefixSize == sd.prefixEnd && sd.externalDict == 0
    && RingOk(ring, sd.prefixEnd, sd.extDictSize, sd.prefixEnd + Min(z.overshoot, z.message), text)
    && (sd.extDictSize == 0 || (z.decodeRing <= sd.extDictSize + z.message && 0 < sd.prefixEnd))
    && at == if sd.prefixEnd >= z.decodeRing - z.message then 0 else sd.prefixEnd
  }

  /** A lap is over: all of it is what is left of the previous lap. */
  lemma NextLap(ring: seq<byte>, e: nat, lap: nat, clean: nat, clean': nat, text: seq<byte>)
    requires RingOk(ring, e, lap, clean, text) && 0 < e
    ensures RingOk(ring, 0, e, clean', text)
  {
  }

  /** The previous lap when a block is decoded at `dest`. */
  function LapAt(sd: StreamDecode, dest: nat): nat
    reads sd
  {
    if sd.prefixSize == 0 then 0 else if sd.prefixEnd == dest then sd.extDictSize else sd.prefixSize
  }

  /** ... and the decoder's view of its memory. */
  function MemoryAt(sd: StreamDecode, dest: nat): Memory
    reads sd
  {
    if sd.prefixSize == 0 then Memory(dest, 0, 0)
    else if sd.prefixEnd == dest then
      if sd.prefixSize >= 65535 then Memory(dest - 65536, 0, 0)
      else if sd.extDictSize == 0 then Memory(dest - sd.prefixSize, 0, 0)
      else Memory(dest - sd.prefixSize, sd.externalDict + sd.extDictSize, sd.extDictSize)
    else Memory(dest, sd.prefixEnd, sd.prefixSize)
  }

  /** LZ4_decompress_safe_continue. */
  method DecompressSafeContinue(z: Sizes, sd: StreamDecode, ring: array<byte>, bytes: seq<byte>, dest: nat, maxOutputSize: nat,
                                litter: Litter, ghost text: seq<byte>, ghost message: seq<byte>, ghost reach: nat, ghost b: Block)
    returns (result: int)
    requires DecodeSizesOk(z) && ReceiverOk(z, sd, ring[..], dest, text) && Sent(z, text, message, bytes, reach, b)
    requires maxOutputSize == z.message && LitterOk(z, litter) && WithinLap(LapAt(sd, dest), b)
    modifies sd, ring
    ensures result == |message| && ring.Length == z.decodeRing
    ensures sd.prefixEnd == dest + |message| && sd.prefixSize == sd.prefixEnd
    ensures sd.externalDict == 0 && sd.extDictSize == old(LapAt(sd, dest))
    ensures sd.extDictSize == 0 || z.decodeRing <= sd.extDictSize + z.message
    ensures Readable(z, old(LapAt(sd, dest)), reach, b) ==>
      RingOk(ring[..], sd.prefixEnd, sd.extDictSize, sd.prefixEnd + Min(z.overshoot, z.message), text + message)
    ensures b.sequences != [] ==>
      && FirstMatchAt(dest, b) < dest + |message|
      && Misread(old(MemoryAt(sd, dest)), FirstMatchAt(dest, b), dest + maxOutputSize, b.sequences[0].offset, bytes, litter,
                 ring[FirstMatchAt(dest, b)])
  {
    hide RingOk, Sent, Misread, Readable, WithinLap, LitterOk, FirstMatchAt;
    MessageFits(z, text, message, bytes, reach, b);
    var oend, m := dest + maxOutputSize, MemoryAt(sd, dest);
    ghost var lap, clear := LapAt(sd, dest), Readable(z, LapAt(sd, dest), reach, b);
    if sd.prefixEnd != dest {
      NextLap(ring[..], sd.prefixEnd, sd.extDictSize, sd.prefixEnd + Min(z.overshoot, z.message), Min(dest + z.overshoot, oend), text);
    }
    result := DecodeInRing(z, ring, m, dest, bytes, oend, litter, lap, text, message, reach, b);
    if clear {
      LessClean(ring[..], dest + result, lap, Min(dest + result + z.overshoot, oend),
                dest + result + Min(z.overshoot, z.message), text + message);
    }
    if result <= 0 { assert false; }
    if sd.prefixSize == 0 {
      sd.prefixSize, sd.prefixEnd := result, dest + result;
    } else if sd.prefixEnd == dest {
      sd.prefixSize, sd.prefixEnd := sd.prefixSize + result, sd.prefixEnd + result;
    } else {
      sd.extDictSize := sd.prefixSize;
      sd.externalDict := sd.prefixEnd - sd.extDictSize;
      sd.prefixSize, sd.prefixEnd := result, dest + result;
    }
  }

  lemma MessageFits(z: Sizes, text: seq<byte>, message: seq<byte>, bytes: seq<byte>, reach: nat, b: Block)
    requires Sent(z, text, message, bytes, reach, b)
    ensures 1 <= |message| <= z.message
  {
  }

  lemma MessageWritten(ring: seq<byte>, at: nat, lap: nat, clean: nat, text: seq<byte>, message: seq<byte>)
    requires RingOk(ring, at + |message|, lap, clean, text + message)
    ensures ring[at..at + |message|] == message
  {
  }

  /** One round of test_decompress: the message comes out, if the block is readable. */
  method Receive(z: Sizes, sd: StreamDecode, ring: array<byte>, at: nat, bytes: seq<byte>, litter: Litter,
                 ghost text: seq<byte>, ghost message: seq<byte>, ghost reach: nat, ghost b: Block)
    returns (out: seq<byte>, at': nat)
    requires DecodeSizesOk(z) && ReceiverOk(z, sd, ring[..], at, text) && Sent(z, text, message, bytes, reach, b)
    requires LitterOk(z, litter) && WithinLap(LapAt(sd, at), b)
    modifies sd, ring
    ensures |out| == |message| && at' == if at + |message| >= z.decodeRing - z.message then 0 else at + |message|
    ensures sd.prefixSize == sd.prefixEnd == at + |message| && sd.externalDict == 0 && sd.extDictSize == old(LapAt(sd, at))
    ensures Readable(z, old(LapAt(sd, at)), reach, b) ==> out == message && ReceiverOk(z, sd, ring[..], at', text + message)
    ensures b.sequences != [] ==>
      && |b.sequences[0].literals| < |message|
      && Misread(old(MemoryAt(sd, at)), FirstMatchAt(at, b), at + z.message, b.sequences[0].offset, bytes, litter,
                 out[|b.sequences[0].literals|])
  {
    hide RingOk, Sent, Misread, Readable, WithinLap, LitterOk;
    MessageFits(z, text, message, bytes, reach, b);
    ghost var lap := LapAt(sd, at);
    var decBytes := DecompressSafeContinue(z, sd, ring, bytes, at, z.message, litter, text, message, reach, b);
    if Readable(z, lap, reach, b) {
      MessageWritten(ring[..], at, sd.extDictSize, sd.prefixEnd + Min(z.overshoot, z.message), text, message);
    }
    out := ring[at..at + decBytes];
    at' := at + decBytes;
    if at' >= z.decodeRing - z.message { at' := 0; }
  }

  // ----- Whole runs -----

  function Joined(messages: seq<seq<byte>>): seq<byte> {
    if messages == [] then [] else Joined(messages[..|messages| - 1]) + messages[|messages| - 1]
  }

  predicate Messages(z: Sizes, messages: seq<seq<byte>>) {
    forall i :: 0 <= i < |messages| ==> 1 <= |messages[i]| <= z.message
  }

  /** What travels: the blocks of all messages, with the proof of each. */
  ghost predicate AllSent(z: Sizes, messages: seq<seq<byte>>, blocks: seq<seq<byte>>, reaches: seq<nat>, bs: seq<Block>) {
    && |blocks| == |reaches| == |bs| <= |messages|
    && forall i :: 0 <= i < |blocks| ==>
         Sent(z, Joined(messages[..i]), messages[i], blocks[i], reaches[i], bs[i]) && AlwaysReadable(z, bs[i])
  }

  lemma NothingSent(z: Sizes, messages: seq<seq<byte>>)
    ensures AllSent(z, messages, [], [], []) && Joined(messages[..0]) == []
  {
  }

  lemma LengthOf(z: Sizes, messages: seq<seq<byte>>, i: nat)
    requires Messages(z, messages) && i < |messages|
    ensures 1 <= |messages[i]| <= z.message
  {
  }

  lemma AnotherSent(z: Sizes, messages: seq<seq<byte>>, blocks: seq<seq<byte>>, reaches: seq<nat>, bs: seq<Block>,
                    bytes: seq<byte>, reach: nat, b: Block)
    requires AllSent(z, messages, blocks, reaches, bs) && |blocks| < |messages|
    requires Sent(z, Joined(messages[..|blocks|]), messages[|blocks|], bytes, reach, b) && AlwaysReadable(z, b)
    ensures AllSent(z, messages, blocks + [bytes], reaches + [reach], bs + [b])
    ensures Joined(messages[..|blocks| + 1]) == Joined(messages[..|blocks|]) + messages[|blocks|]
  {
    hide Sent, AlwaysReadable;
    assert messages[..|blocks| + 1][..|blocks|] == messages[..|blocks|];
  }

  lemma SenderStarts(z: Sizes, stream: Stream, ring: seq<byte>)
    requires SenderSizesOk(z) && stream.Valid() && stream.currentOffset == 0 && stream.tableState == Cleared
    requires stream.dictionary == 0 && stream.dictSize == 0 && |ring| == z.ring
    ensures SenderOk(z, stream, ring, 0, [])
  {
  }

  /** test_compress: one block for each message. */
  method SendAll(z: Sizes, messages: seq<seq<byte>>, size: nat, hash: Hash)
    returns (blocks: seq<seq<byte>>, ghost reaches: seq<nat>, ghost bs: seq<Block>)
    requires SizesOk(z) && RoundTrips(z) && Messages(z, messages) && HashOk(hash, size)
    ensures |blocks| == |messages| && AllSent(z, messages, blocks, reaches, bs)
  {
    hide Sent, SenderOk, Stream.Valid, OffsetsWithin, Searched, Kept, AllSent, Messages;
    var stream := new Stream(size);
    var ring := new byte[z.ring](_ => 0);
    var at := 0;
    blocks, reaches, bs := [], [], [];
    SenderStarts(z, stream, ring[..]);
    NothingSent(z, messages);
    for i := 0 to |messages|
      invariant fresh(stream) && fresh(stream.hashTable) && fresh(ring) && ring as object != stream.hashTable
      invariant stream.hashTable.Length == size
      invariant SenderOk(z, stream, ring[..], at, Joined(messages[..i]))
      invariant |blocks| == i && AllSent(z, messages, blocks, reaches, bs)
    {
      var bytes;
      ghost var reach, b;
      LengthOf(z, messages, i);
      bytes, at, reach, b := Send(z, stream, ring, at, messages[i], hash, Joined(messages[..i]));
      OffsetsWithinMore(b, LargestOffset(z), z.decodeRing - z.message - z.overshoot);
      AnotherSent(z, messages, blocks, reaches, bs, bytes, reach, b);
      blocks, reaches, bs := blocks + [bytes], reaches + [reach], bs + [b];
    }
  }

  /** test_decompress, and the round trip: all messages come out as they went in,
      although the two rings wrap around at different places. */
  method ReceiveAll(z: Sizes, blocks: seq<seq<byte>>, litter: Litter,
                    ghost messages: seq<seq<byte>>, ghost reaches: seq<nat>, ghost bs: seq<Block>)
    returns (out: seq<seq<byte>>)
    requires DecodeSizesOk(z) && |blocks| == |messages| && AllSent(z, messages, blocks, reaches, bs) && LitterOk(z, litter)
    ensures out == messages
  {
    hide Sent, RingOk, Readable, AlwaysReadable, WithinLap, LitterOk, Misread;
    var sd := new StreamDecode();
    var ring := new byte[z.decodeRing](_ => 0);
    var at := 0;
    out := [];
    EmptyRing(ring[..], Min(z.overshoot, z.message));
    for i := 0 to |blocks|
      invariant fresh(sd) && fresh(ring) && ReceiverOk(z, sd, ring[..], at, Joined(messages[..i]))
      invariant out == messages[..i]
    {
      var message;
      LapIsLong(z, sd, ring[..], at, Joined(messages[..i]));
      ReadableInLap(z, LapAt(sd, at), reaches[i], bs[i]);
      message, at := Receive(z, sd, ring, at, blocks[i], litter, Joined(messages[..i]), messages[i], reaches[i], bs[i]);
      assert messages[..i + 1][..i] == messages[..i];
      out := out + [message];
    }
    assert messages[..|blocks|] == messages;
  }

  lemma LapIsLong(z: Sizes, sd: StreamDecode, ring: seq<byte>, at: nat, text: seq<byte>)
    requires ReceiverOk(z, sd, ring, at, text)
    ensures LapAt(sd, at) == 0 || z.decodeRing <= LapAt(sd, at) + z.message
  {
  }

  lemma EmptyRing(ring: seq<byte>, clean: nat)
    ensures RingOk(ring, 0, 0, clean, [])
  {
  }

  /** Whatever the hash function, and whatever copies leave behind them, all messages come
      out as they went in. */
  method RoundTrip(z: Sizes, messages: seq<seq<byte>>, size: nat, hash: Hash, litter: Litter) returns (out: seq<seq<byte>>)
    requires SizesOk(z) && RoundTrips(z) && Messages(z, messages) && HashOk(hash, size) && LitterOk(z, litter)
    ensures out == messages
  {
    hide AllSent, LitterOk;
    var blocks;
    ghost var reaches, bs;
    blocks, reaches, bs := SendAll(z, messages, size, hash);
    out := ReceiveAll(z, blocks, litter, messages, reaches, bs);
  }

  /** LZ4_DECODER_RING_BUFFER_SIZE. */
  function DecoderRingBufferSize(maxBlockSize: nat): nat {
    65536 + 14 + maxBlockSize
  }

  /** A ring of that size takes blocks of any source that respects the block size: each
      may refer to everything before it.  Copies may overshoot by 15 bytes. */
  method ReceiveAnySource(maxBlockSize: nat, overshoot: nat, blocks: seq<seq<byte>>, litter: Litter,
                          ghost messages: seq<seq<byte>>, ghost bs: seq<Block>)
    returns (out: seq<seq<byte>>)
    requires FromAnySource(maxBlockSize, blocks, messages, bs) && 1 <= maxBlockSize
    requires overshoot <= 15 && LitterOk(AnySourceSizes(maxBlockSize, overshoot), litter)
    ensures out == messages
  {
    hide Stands, Sent, LitterOk, AlwaysReadable;
    var z := AnySourceSizes(maxBlockSize, overshoot);
    ghost var reaches := seq(|blocks|, i requires 0 <= i < |blocks| => |Joined(messages[..i])|);
    forall i | 0 <= i < |blocks|
      ensures Sent(z, Joined(messages[..i]), messages[i], blocks[i], reaches[i], bs[i]) && AlwaysReadable(z, bs[i])
    {
      AnySource(z, Joined(messages[..i]), messages[i], blocks[i], bs[i]);
    }
    out := ReceiveAll(z, blocks, litter, messages, reaches, bs);
  }

  function AnySourceSizes(maxBlockSize: nat, overshoot: nat): Sizes {
    Sizes(maxBlockSize, 0, DecoderRingBufferSize(maxBlockSize), overshoot)
  }

  /** Blocks for these messages in the format, each with all the text before it as history. */
  ghost predicate FromAnySource(maxBlockSize: nat, blocks: seq<seq<byte>>, messages: seq<seq<byte>>, bs: seq<Block>) {
    && |blocks| == |messages| == |bs|
    && forall i :: 0 <= i < |blocks| ==>
         1 <= |messages[i]| <= maxBlockSize && Stands(Joined(messages[..i]), messages[i], blocks[i], bs[i])
  }

  lemma AnySource(z: Sizes, text: seq<byte>, message: seq<byte>, bytes: seq<byte>, b: Block)
    requires DISTANCE_MAX + z.message + z.overshoot <= z.decodeRing && 1 <= |message| <= z.message && Stands(text, message, bytes, b)
    ensures Sent(z, text, message, bytes, |text|, b) && AlwaysReadable(z, b)
  {
    hide Stands;
    assert Last(text, |text|) == text;
    OffsetsBounded(text, message, bytes, b, z.decodeRing - z.message - z.overshoot);
  }
}
