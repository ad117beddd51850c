/** What the compressors share: the parse emitted so far, the reaction of the HC
    parsers to a full output buffer, and the end of the block. */
module BlockWriter {
  import opened BlockFormat
  import opened SourceParse
  import opened Emitter

  datatype Match = Match(start: nat, ref: nat, len: nat) {
    function End(): nat { start + len }
  }

  /** A match the format can carry at its place in the block. */
  predicate Usable(buf: seq<byte>, m: Match) {
    && m.End() + LASTLITERALS <= |buf| && IsMatch(buf, m.start, m.ref, m.len, |buf| - LASTLITERALS)
    && MINMATCH <= m.len && m.start + MFLIMIT <= |buf|
  }

  /** The sequence that ends with `m`. */
  function SequenceOf(buf: seq<byte>, anchor: nat, m: Match): Sequence
    requires anchor <= m.start <= |buf| && m.ref <= m.start
  {
    Sequence(buf[anchor..m.start], m.start - m.ref, m.len)
  }

  /** The beginning of a usable match is a usable match. */
  lemma Shortened(buf: seq<byte>, m: Match, len: nat)
    requires Usable(buf, m) && MINMATCH <= len <= m.len
    ensures Usable(buf, Match(m.start, m.ref, len)) && m.ref < m.start
  {
    SubMatch(buf, m.start, m.ref, m.len, |buf| - LASTLITERALS, 0, len);
  }

  /** `out` is the layout of a parse of `buf[start..anchor]` whose last match keeps
      clear of the end of the source. */
  ghost predicate Emitted(buf: seq<byte>, start: nat, out: seq<byte>, anchor: nat, ss: seq<Sequence>) {
    && Tiles(buf, start, anchor, ss)
    && AllEncodable(ss) && out == EncodeSequences(ss)
    && (ss != [] ==>
          anchor + LASTLITERALS <= |buf| && anchor + MFLIMIT <= |buf| + ss[|ss| - 1].matchLength)
  }

  lemma EmittedFits(buf: seq<byte>, start: nat, out: seq<byte>, anchor: nat, ss: seq<Sequence>)
    requires Emitted(buf, start, out, anchor, ss)
    ensures start <= anchor <= |buf| && |out| <= (anchor - start) + (anchor - start) / 255
  {
    SequencesSize(buf[..start], ss);
  }

  lemma EmittedExtends(buf: seq<byte>, start: nat, out: seq<byte>, anchor: nat, ss: seq<Sequence>, m: Match)
    requires Emitted(buf, start, out, anchor, ss) && anchor <= m.start && Usable(buf, m)
    ensures var s := Sequence(buf[anchor..m.start], m.start - m.ref, m.len);
            Encodable(s) && Emitted(buf, start, out + EncodeSequence(s), m.End(), ss + [s])
  {
    hide EncodeSequence;
    var s := Sequence(buf[anchor..m.start], m.start - m.ref, m.len);
    ExtendTiles(buf, start, anchor, ss, m.start, m.ref, m.len, |buf| - LASTLITERALS);
    EncodeSnoc(ss, s);
  }

  /** Room for one more sequence, the overshoot of its literals included. */
  predicate HasRoom(dstLength: nat, op: nat, litLength: nat, matchLength: nat)
    requires MINMATCH <= matchLength
  {
    && op + LiteralCost(litLength) + Overshoot(litLength) <= dstLength
    && op + SequenceCost(litLength, matchLength) <= dstLength
  }

  /** A destination of LZ4_compressBound bytes always has room, until the end. */
  lemma BoundHasRoom(buf: seq<byte>, start: nat, out: seq<byte>, anchor: nat, ss: seq<Sequence>, m: Match, dstLength: nat)
    requires Emitted(buf, start, out, anchor, ss) && anchor <= m.start && Usable(buf, m)
    requires CompressBound(|buf| - start) <= dstLength
    ensures HasRoom(dstLength, |out|, m.start - anchor, m.len)
    ensures |out| + SequenceCost(m.start - anchor, m.len) + 16 <= dstLength
  {
    EmittedFits(buf, start, out, anchor, ss);
    SequenceSize(m.start - anchor, m.len - MINMATCH);
  }

  /** Emits the literals before `m`, then `m`. */
  method Emit(buf: seq<byte>, ghost start: nat, dst: array<byte>, op: nat, anchor: nat, m: Match,
              limit: Limit, oend: int, ghost ss: seq<Sequence>)
    returns (overflow: bool, op': nat, anchor': nat, ghost ss': seq<Sequence>)
    requires op <= dst.Length && Emitted(buf, start, dst[..op], anchor, ss) && anchor <= m.start && Usable(buf, m)
    requires if limit == NotLimited then HasRoom(dst.Length, op, m.start - anchor, m.len) else oend <= dst.Length
    modifies dst
    ensures op' <= dst.Length && Emitted(buf, start, dst[..op'], anchor', ss')
    ensures overflow == (limit != NotLimited && Overflows(op, m.start - anchor, m.len, oend))
    ensures overflow ==> op' == op && anchor' == anchor && ss' == ss
    ensures !overflow ==>
      && ss' == ss + [Sequence(buf[anchor..m.start], m.start - m.ref, m.len)]
      && anchor' == m.End() && op' == op + SequenceCost(m.start - anchor, m.len)
      && (limit != NotLimited ==> op' + LASTLITERALS <= oend)
  {
    hide EncodeSequence, Emitted;
    EmittedExtends(buf, start, dst[..op], anchor, ss, m);
    overflow, op' := EncodeSequenceHC(buf, dst, op, anchor, m.start, m.len, m.ref, limit, oend);
    if overflow {
      op', anchor', ss' := op, anchor, ss;
    } else {
      anchor', ss' := m.End(), ss + [Sequence(buf[anchor..m.start], m.start - m.ref, m.len)];
    }
  }

  /** When filling, what remains of the destination takes enough last literals. */
  predicate CanEnd(dstLength: nat, op: nat, ss: seq<Sequence>) {
    && op < dstLength
    && (ss != [] ==>
          && LASTLITERALS <= LastThatFits(dstLength - op)
          && MFLIMIT <= LastThatFits(dstLength - op) + ss[|ss| - 1].matchLength)
  }

  /** The sequence `m` did not fit: shortens its match, or drops it, so that the
      destination can be filled (the _dest_overflow sections). */
  method FillTail(buf: seq<byte>, ghost start: nat, dst: array<byte>, op: nat, anchor: nat, m: Match, ghost ss: seq<Sequence>)
    returns (op': nat, anchor': nat, ghost ss': seq<Sequence>)
    requires op <= dst.Length && Emitted(buf, start, dst[..op], anchor, ss) && anchor <= m.start && Usable(buf, m)
    requires CanEnd(dst.Length, op, ss) && Overflows(op, m.start - anchor, m.len, dst.Length - LASTLITERALS)
    modifies dst
    ensures op' <= dst.Length && Emitted(buf, start, dst[..op'], anchor', ss')
    ensures CanEnd(dst.Length, op', ss')
    ensures Tail(buf, anchor, m, ss, anchor', ss', LastThatFits(dst.Length - op'))
  {
    hide Emitted, IsMatch, LastThatFits, HasRoom, SequenceCost, LiteralCost, CanEnd, Overflows;
    LastFits(dst.Length, op, ss);
    var oend := dst.Length - LASTLITERALS;
    var ll := m.start - anchor;
    var llTotalCost := 1 + (ll + 240) / 255 + ll;
    CostOfLiterals(ll);
    var maxLitPos := oend - 3;
    op', anchor', ss' := op, anchor, ss;
    if op + llTotalCost <= maxLitPos {
      var bytesLeftForMl := maxLitPos - (op + llTotalCost);
      var maxMlSize := MINMATCH + (ML_MASK - 1) + bytesLeftForMl * 255;
      var ml := if m.len > maxMlSize then maxMlSize else m.len;
      if (oend + LASTLITERALS) - (op + llTotalCost + 2) - 1 + ml >= MFLIMIT {
        Shortened(buf, m, ml);
        ShortenedFits(dst.Length, op, ll, ml, bytesLeftForMl);
        var overflow;
        overflow, op', anchor', ss' := Emit(buf, start, dst, op, anchor, Match(m.start, m.ref, ml), NotLimited, oend, ss);
        EndsAfter(dst.Length, op', ss, Sequence(buf[anchor..m.start], m.start - m.ref, ml));
        ShortenedFills(dst.Length, op, ll, m.len, ml, bytesLeftForMl);
        return;
      }
    }
    DroppedFills(dst.Length, op, ll);
  }

  /** What FillTail does: a part of the match is emitted, or the literals in front of it go
      on for at most ten bytes. */
  ghost predicate Tail(buf: seq<byte>, anchor: nat, m: Match, ss: seq<Sequence>, anchor': nat, ss': seq<Sequence>, lastRun: nat)
    requires anchor <= m.start <= |buf| && m.ref <= m.start
  {
    if ss' == ss then anchor' == anchor && lastRun <= m.start - anchor + 10
    else lastRun <= 10 && exists len: nat ::
           MINMATCH <= len <= m.len && ss' == ss + [SequenceOf(buf, anchor, m.(len := len))] && anchor' == m.start + len
  }

  lemma ShortenedFills(dstLength: nat, op: nat, ll: nat, len: nat, ml: nat, left: nat)
    requires MINMATCH <= ml <= len && op + LiteralCost(ll) + left == dstLength - LASTLITERALS - 3
    requires ml == if len > MINMATCH + (ML_MASK - 1) + left * 255 then MINMATCH + (ML_MASK - 1) + left * 255 else len
    requires Overflows(op, ll, len, dstLength - LASTLITERALS)
    ensures var room := dstLength - (op + SequenceCost(ll, ml)); 1 <= room ==> LastThatFits(room) <= 10
  {
  }

  lemma DroppedFills(dstLength: nat, op: nat, ll: nat)
    requires op < dstLength < op + LiteralCost(ll) + 11
    ensures LastThatFits(dstLength - op) <= ll + 10
  {
  }

  lemma LastFits(dstLength: nat, op: nat, ss: seq<Sequence>)
    requires CanEnd(dstLength, op, ss)
    ensures op < dstLength
  {
  }

  lemma CostOfLiterals(ll: nat)
    ensures LiteralCost(ll) == 1 + (ll + 240) / 255 + ll
  {
  }

  lemma EndsAfter(dstLength: nat, op: nat, ss: seq<Sequence>, s: Sequence)
    requires op + 6 <= dstLength && MFLIMIT <= LastThatFits(dstLength - op) + s.matchLength
    ensures CanEnd(dstLength, op, ss + [s])
  {
  }

  lemma ShortenedFits(dstLength: nat, op: nat, ll: nat, ml: nat, left: nat)
    requires MINMATCH <= ml <= MINMATCH + (ML_MASK - 1) + left * 255
    requires op + LiteralCost(ll) + left == dstLength - LASTLITERALS - 3
    requires MFLIMIT <= dstLength - (op + LiteralCost(ll) + 2) - 1 + ml
    ensures HasRoom(dstLength, op, ll, ml)
    ensures var room := dstLength - (op + SequenceCost(ll, ml));
            6 <= room && MFLIMIT <= LastThatFits(room) + ml
  {
    assert |Extension(ml - MINMATCH)| <= left;
  }

  /** `b` stands for the whole source, and `room` bytes do not hold it: not even its
      sequences with five last literals, if `b` was not completed. */
  ghost predicate TooBig(buf: seq<byte>, start: nat, b: Block, room: nat, completed: bool) {
    && start <= |buf| && AllEncodable(b.sequences) && IsBlockOf(buf, start, |buf| - start, EncodeBlock(b), b)
    && (!completed ==> b.sequences != [])
    && room < if completed then |EncodeBlock(b)| else |EncodeSequences(b.sequences)| + 1 + LASTLITERALS
  }

  lemma TooBigForBound(buf: seq<byte>, start: nat, b: Block, room: nat, completed: bool)
    requires TooBig(buf, start, b, room, completed)
    ensures room < |EncodeBlock(b)| <= CompressBound(|buf| - start)
  {
    hide EncodeSequences, ValidSequences, Content;
    BlockSize(buf[..start], b);
  }

  lemma UsableRef(buf: seq<byte>, m: Match)
    requires Usable(buf, m)
    ensures m.ref < m.start && m.End() + LASTLITERALS <= |buf|
  {
  }

  /** A compressor that gives up at `m`: the parse up to `m` leaves no room for last literals. */
  lemma GivenUp(buf: seq<byte>, start: nat, out: seq<byte>, anchor: nat, ss: seq<Sequence>, m: Match, room: nat) returns (b: Block)
    requires Emitted(buf, start, out, anchor, ss) && anchor <= m.start && Usable(buf, m)
    requires room < |out| + SequenceCost(m.start - anchor, m.len) + 1 + LASTLITERALS
    ensures TooBig(buf, start, b, room, false)
    ensures m.ref < m.start && b.sequences == ss + [SequenceOf(buf, anchor, m)] && |b.last| == |buf| - m.End()
  {
    hide Emitted, Usable, EncodeLast, IsBlockOf;
    UsableRef(buf, m);
    b := Block(ss + [SequenceOf(buf, anchor, m)], buf[m.End()..|buf|]);
    EmittedExtends(buf, start, out, anchor, ss, m);
    var out' := out + EncodeSequence(SequenceOf(buf, anchor, m));
    EmittedKeepsClear(buf, start, out', m.End(), b.sequences);
    EmittedEnds(buf, start, out', m.End(), b.sequences, |buf|);
    EmittedBytes(buf, start, out', m.End(), b.sequences);
  }

  lemma EmittedBytes(buf: seq<byte>, start: nat, out: seq<byte>, anchor: nat, ss: seq<Sequence>)
    requires Emitted(buf, start, out, anchor, ss)
    ensures start <= anchor <= |buf| && AllEncodable(ss) && out == EncodeSequences(ss)
  {
  }

  lemma OverflowsIsTooBig(op: nat, litLength: nat, matchLength: nat, oend: int)
    requires MINMATCH <= matchLength && Overflows(op, litLength, matchLength, oend)
    ensures oend < op + SequenceCost(litLength, matchLength) + 1 + LASTLITERALS
  {
  }

  /** The last literals, and with them the whole block. */
  method FinishBlock(buf: seq<byte>, start: nat, dst: array<byte>, op: nat, anchor: nat, limit: Limit, ghost ss: seq<Sequence>)
    returns (result: nat, consumed: nat, ghost b: Block)
    requires op <= dst.Length && Emitted(buf, start, dst[..op], anchor, ss)
    requires limit == NotLimited ==> CompressBound(|buf| - start) <= dst.Length
    requires limit == FillOutput ==> CanEnd(dst.Length, op, ss)
    modifies dst
    ensures result == 0 ==> limit == LimitedOutput && TooBig(buf, start, b, dst.Length, true) && anchor + |b.last| == |buf|
    ensures 0 < result ==> result <= dst.Length && IsBlockOf(buf, start, consumed, dst[..result], b)
    ensures 0 < result && limit != FillOutput ==> consumed == |buf| - start
    ensures 0 < result && limit == FillOutput ==> consumed == |buf| - start || dst.Length <= result + 1
    ensures 0 < result && limit == FillOutput ==> |b.last| <= LastThatFits(dst.Length - op)
    ensures 0 < result ==> anchor + |b.last| == start + consumed <= |buf|
    ensures b.sequences == ss
  {
    hide EncodeLast, EncodeSequences, Emitted, IsBlockOf, AllEncodable, LastThatFits, CanEnd;
    EmittedFits(buf, start, dst[..op], anchor, ss);
    EmittedKeepsClear(buf, start, dst[..op], anchor, ss);
    if limit == FillOutput {
      LastFits(dst.Length, op, ss);
      LastRunFits(dst.Length - op, |buf| - anchor);
    }
    ghost var out := dst[..op];
    var ok, op', lastRun := EmitLast(buf, dst, op, anchor, limit, dst.Length);
    if !ok {
      b := Block(ss, buf[anchor..|buf|]);
      EmittedBytes(buf, start, out, anchor, ss);
      EmittedEnds(buf, start, out, anchor, ss, |buf|);
      LastSize(b.last);
      return 0, 0, b;
    }
    b := Block(ss, buf[anchor..anchor + lastRun]);
    if limit == FillOutput { LastCanEnd(dst.Length, op, ss); }
    EmittedEnds(buf, start, out, anchor, ss, anchor + lastRun);
    result, consumed := op', anchor + lastRun - start;
  }

  lemma LastSize(last: seq<byte>)
    ensures |EncodeLast(last)| == LastCost(|last|)
  {
  }

  /** What is filled with literals has at most one byte left; what holds all of them may have more. */
  lemma LastRunFits(room: nat, n: nat)
    requires 1 <= room
    ensures room <= LastCost(LastThatFits(room)) + 1
    ensures LastCost(n) <= room ==> n <= LastThatFits(room)
  {
  }

  lemma LastCanEnd(dstLength: nat, op: nat, ss: seq<Sequence>)
    requires CanEnd(dstLength, op, ss)
    ensures op < dstLength
    ensures ss != [] ==> LASTLITERALS <= LastThatFits(dstLength - op) && MFLIMIT <= LastThatFits(dstLength - op) + ss[|ss| - 1].matchLength
  {
  }

  /** A parse whose last match keeps clear of `end` makes a block that ends there. */
  lemma EmittedEnds(buf: seq<byte>, start: nat, out: seq<byte>, anchor: nat, ss: seq<Sequence>, end: nat)
    requires Emitted(buf, start, out, anchor, ss) && anchor <= end <= |buf|
    requires ss != [] ==> anchor + LASTLITERALS <= end && anchor + MFLIMIT <= end + ss[|ss| - 1].matchLength
    ensures IsBlockOf(buf, start, end - start, out + EncodeLast(buf[anchor..end]), Block(ss, buf[anchor..end]))
  {
    TilesContent(buf, start, anchor, ss, end);
  }

  /** Stopping at the end of the source always keeps the distances. */
  lemma EmittedKeepsClear(buf: seq<byte>, start: nat, out: seq<byte>, anchor: nat, ss: seq<Sequence>)
    requires Emitted(buf, start, out, anchor, ss)
    ensures ss != [] ==> anchor + LASTLITERALS <= |buf| && anchor + MFLIMIT <= |buf| + ss[|ss| - 1].matchLength
  {
  }

  /** Output so far, and what it takes to emit the next match into it. */
  ghost predicate Output(buf: seq<byte>, start: nat, dst: array<byte>, op: nat, anchor: nat, limit: Limit, ss: seq<Sequence>)
    reads dst
  {
    && op <= dst.Length && Emitted(buf, start, dst[..op], anchor, ss)
    && (limit == NotLimited ==> CompressBound(|buf| - start) <= dst.Length)
    && (limit == FillOutput ==> CanEnd(dst.Length, op, ss))
  }

  function OutputEnd(dst: array<byte>, limit: Limit): int {
    if limit == FillOutput then dst.Length - LASTLITERALS else dst.Length
  }

  /** Emits one match at a label. */
  method EmitMatch(buf: seq<byte>, ghost start: nat, dst: array<byte>, op: nat, anchor: nat, m: Match, limit: Limit, ghost ss: seq<Sequence>)
    returns (overflow: bool, op': nat, anchor': nat, ghost ss': seq<Sequence>)
    requires Output(buf, start, dst, op, anchor, limit, ss) && anchor <= m.start && Usable(buf, m)
    modifies dst
    ensures Output(buf, start, dst, op', anchor', limit, ss') && m.ref < m.start
    ensures overflow ==> limit != NotLimited && Overflows(op, m.start - anchor, m.len, OutputEnd(dst, limit))
    ensures overflow ==> op' == op && anchor' == anchor && ss' == ss
    ensures !overflow ==> anchor' == m.End() && ss' == ss + [SequenceOf(buf, anchor, m)]
  {
    hide Emitted, IsMatch, LastThatFits;
    UsableRef(buf, m);
    if limit == NotLimited {
      BoundHasRoom(buf, start, dst[..op], anchor, ss, m, dst.Length);
    }
    overflow, op', anchor', ss' := Emit(buf, start, dst, op, anchor, m, limit, OutputEnd(dst, limit), ss);
  }

  lemma MatchEnds(buf: seq<byte>, s: nat, r: nat, len: nat, limit: nat)
    requires IsMatch(buf, s, r, len, limit)
    ensures s + len <= limit
  {
  }

  lemma NothingEmitted(buf: seq<byte>, start: nat)
    requires start <= |buf|
    ensures Emitted(buf, start, [], start, [])
  {
  }
}
