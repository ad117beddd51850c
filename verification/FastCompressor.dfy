/** The fast compressor (LZ4_compress_generic_validated), with table types byU32 and
    byU16, for a single block or a block that continues a stream.

    Whatever the hash function and the contents of the table, only real repetitions are
    emitted; and every position that the search comes to is tested.
 */
module FastCompressor {
  import opened BlockFormat
  import opened SourceParse
  import opened MatchCount
  import opened Emitter
  import opened BlockWriter
  import opened FastTable
  import opened FastTrace

  /** Scans forward, faster and faster, until the four bytes at `ip` repeat those of
      the latest position with the same hash. */
  method FindMatch(su: Setup, table: array<nat>, start: nat, acceleration: nat, ghost before: seq<nat>, ghost trace: seq<Move>)
    returns (found: bool, ip: nat, m: nat, ghost trace': seq<Move>)
    requires SetupOk(su) && Indexed(su, table, start) && su.start <= start && start + MFLIMIT <= |su.buf| + 1
    requires 1 <= acceleration && Tracked(su, before, trace, table[..], start)
    modifies table
    ensures Tracked(su, before, trace', table[..], if found then ip + 1 else ip) && trace <= trace'
    ensures Scanned(su, acceleration, trace', start, if found then ip else |su.buf|)
    ensures start + MFLIMIT <= |su.buf| && old(Taken(su, table[su.hash(start)], start)) ==>
      found && ip == start && m + su.shift == old(table[su.hash(start)])
    ensures start + MFLIMIT == |su.buf| ==> table[su.hash(start)] == Stored(su, start)
    ensures UnhitKept(su, old(table[..]), table[..])
    ensures Indexed(su, table, if found then ip + 1 else ip) && (old(Bucketed(su, table)) ==> Bucketed(su, table))
    ensures start <= ip && ip + MFLIMIT <= |su.buf| + 1
    ensures found ==> ip + MFLIMIT <= |su.buf| && IsMatch(su.buf, ip, m, MINMATCH, |su.buf|) && OneSegment(su, m)
  {
    hide IsMatch, OneSegment, EntryOk, Taken, Stored, SetupOk, Bucketed, UnhitKept, Tracked, Probing, Scanned;
    ghost var first, k: nat := table[su.hash(start)], 0;
    trace' := trace;
    AllKept(su, table[..]);
    FirstProbe(acceleration, trace, start);
    var forwardIp, step, searchMatchNb := start, 1, acceleration * SKIP_TRIGGER;
    while true
      invariant start <= forwardIp && forwardIp + MFLIMIT <= |su.buf| + 1
      invariant step == Step(acceleration, k) && searchMatchNb == acceleration * SKIP_TRIGGER + k
      invariant Tracked(su, before, trace', table[..], forwardIp) && Probing(acceleration, trace, trace', start, k, forwardIp)
      invariant Indexed(su, table, forwardIp) && (old(Bucketed(su, table)) ==> Bucketed(su, table))
      invariant if forwardIp == start then table[su.hash(start)] == first && step == 1 else !Taken(su, first, start)
      invariant start < forwardIp && start + MFLIMIT == |su.buf| ==> table[su.hash(start)] == Stored(su, start)
      invariant UnhitKept(su, old(table[..]), table[..])
      decreases |su.buf| - forwardIp
    {
      var e := table[su.hash(forwardIp)];
      ip := forwardIp;
      forwardIp := forwardIp + step;
      step := searchMatchNb / SKIP_TRIGGER;
      searchMatchNb := searchMatchNb + 1;
      if forwardIp + MFLIMIT > |su.buf| + 1 {
        ProbesEnd(su, acceleration, trace, trace', start, k, ip);
        return false, ip, 0, trace';
      }
      ghost var was := table[..];
      Put(su, table, ip, ip);
      StillKept(su, old(table[..]), was, table[..]);
      found, m := TestCandidate(su, e, ip);
      Moves(su, before, trace', was, if found then Hit(ip) else Missed(ip), table[..]);
      if found {
        ProbeHit(su, acceleration, trace, trace', start, k, ip);
        trace' := trace' + [Hit(ip)];
        return;
      }
      ProbeMissed(acceleration, trace, trace', start, k, ip);
      trace', k := trace' + [Missed(ip)], k + 1;
      StillTracked(su, before, trace', table[..], ip + 1, forwardIp);
    }
  }

  // ----- Extending a match -----

  /** A match may grow backwards to here. */
  function LowLimit(su: Setup, m: nat): nat {
    if su.directive == ExtDict && su.start <= m then su.start else 0
  }

  method CatchUp(su: Setup, anchor: nat, ip0: nat, m0: nat) returns (ip: nat, m: nat)
    requires anchor <= ip0 && IsMatch(su.buf, ip0, m0, MINMATCH, |su.buf|)
    ensures anchor <= ip <= ip0 && m <= m0 && ip0 - ip == m0 - m
    ensures IsMatch(su.buf, ip, m, MINMATCH + (ip0 - ip), |su.buf|)
    ensures m == m0 || LowLimit(su, m0) <= m
    ensures OneSegment(su, m0) ==> OneSegment(su, m)
    ensures StartsEarly(su, ip, ip - m, ip - anchor)
  {
    hide Repeats;
    ip, m := ip0, m0;
    while ip > anchor && m > LowLimit(su, m0) && su.buf[ip - 1] == su.buf[m - 1]
      invariant anchor <= ip <= ip0 && m <= m0 && ip0 - ip == m0 - m
      invariant m == m0 || LowLimit(su, m0) <= m
      invariant Repeats(su.buf, ip, m, MINMATCH + (ip0 - ip))
    {
      RepeatsFromFront(su.buf, ip - 1, m - 1, MINMATCH + (ip0 - ip) + 1);
      ip, m := ip - 1, m - 1;
    }
  }

  /** Counts the bytes of a match after its first four.  In an external history the
      count stops at its end and goes on at the start of the block. */
  method CountMatch(su: Setup, ip: nat, m: nat) returns (matchCode: nat)
    requires m < ip && su.start <= ip && ip + MINMATCH + LASTLITERALS <= |su.buf|
    requires OneSegment(su, m)
    ensures matchCode == CommonLength(su.buf, ip + MINMATCH, m + MINMATCH, |su.buf| - LASTLITERALS)
  {
    var matchlimit := |su.buf| - LASTLITERALS;
    if su.directive == ExtDict && m < su.start {
      var limit := if ip + (su.start - m) > matchlimit then matchlimit else ip + (su.start - m);
      matchCode := Count(su.buf, ip + MINMATCH, m + MINMATCH, limit);
      TruncatedCount(su.buf, ip + MINMATCH, m + MINMATCH, limit, matchlimit);
      if ip + MINMATCH + matchCode == limit {
        var more := Count(su.buf, limit, su.start, matchlimit);
        matchCode := matchCode + more;
      }
    } else {
      matchCode := Count(su.buf, ip + MINMATCH, m + MINMATCH, matchlimit);
    }
  }

  /** A count that reaches a nearer limit can be resumed there. */
  lemma {:induction false} TruncatedCount(buf: seq<byte>, a: nat, b: nat, near: nat, far: nat)
    requires b <= a <= near <= far <= |buf|
    ensures var c := CommonLength(buf, a, b, near);
            CommonLength(buf, a, b, far) == if a + c == near then c + CommonLength(buf, near, b + c, far) else c
    decreases near - a
  {
    if a != near && buf[a] == buf[b] {
      TruncatedCount(buf, a + 1, b + 1, near, far);
    }
  }

  /** The whole match at `ip`: usable, and longer than its first `known` bytes. */
  lemma WholeMatch(buf: seq<byte>, ip: nat, m: nat, known: nat, matchCode: nat)
    requires IsMatch(buf, ip, m, known, |buf|) && MINMATCH <= known && ip + known + 8 <= |buf|
    requires matchCode == CommonLength(buf, ip + MINMATCH, m + MINMATCH, |buf| - LASTLITERALS)
    ensures Usable(buf, Match(ip, m, MINMATCH + matchCode)) && known <= MINMATCH + matchCode
    ensures CannotGrow(buf, ip - m, ip + MINMATCH + matchCode)
  {
    CommonLengthStops(buf, ip + MINMATCH, m + MINMATCH, |buf| - LASTLITERALS);
    var limit := |buf| - LASTLITERALS;
    CommonLengthIsLongest(buf, ip, m, limit, known);
    CommonLengthIsLongest(buf, ip, m, limit, MINMATCH);
    SubMatch(buf, ip, m, known, |buf|, 0, MINMATCH);
    RepeatsIsEquality(buf, ip, m, MINMATCH);
    SkipEqual(buf, ip, m, limit, MINMATCH);
    CommonLengthIsLongest(buf, ip, m, limit, MINMATCH + matchCode);
  }

  // ----- Emitting a sequence -----

  datatype Outcome = Done | GiveUp | ToLastLiterals

  /** `out` is `pre` and the front of a sequence, its literals included. */
  predicate Headed(out: seq<byte>, pre: seq<byte>, buf: seq<byte>, anchor: nat, ip: nat) {
    anchor <= ip <= |buf| && out == pre + [Token(ip - anchor, 0)] + Extension(ip - anchor) + buf[anchor..ip]
  }

  /** `out` is `head` and the rest of the sequence, whose token is completed. */
  predicate Patched(out: seq<byte>, head: seq<byte>, token: nat, litLength: nat, offset: nat, matchCode: nat) {
    && token < |head| && offset <= DISTANCE_MAX
    && out == (head + OffsetBytes(offset))[token := Token(litLength, matchCode)] + Extension(matchCode)
  }

  lemma HeadedFront(out: seq<byte>, pre: seq<byte>, buf: seq<byte>, anchor: nat, ip: nat)
    requires Headed(out, pre, buf, anchor, ip)
    ensures |pre| < |out| && out[..|pre|] == pre && out[|pre|] == Token(ip - anchor, 0)
  {
  }

  lemma WholeSequence(out: seq<byte>, head: seq<byte>, pre: seq<byte>, buf: seq<byte>, anchor: nat, ip: nat, offset: nat, matchCode: nat)
    requires Headed(head, pre, buf, anchor, ip) && Patched(out, head, |pre|, ip - anchor, offset, matchCode)
    ensures out == pre + EncodeSequence(Sequence(buf[anchor..ip], offset, MINMATCH + matchCode))
  {
    hide EncodeSequence, Token, Extension, OffsetBytes;
    PatchToken(pre, Sequence(buf[anchor..ip], offset, MINMATCH + matchCode));
  }

  /** Token and literals; nothing but a zero token when a match follows another one
      at once. */
  method EmitLiteralsFast(buf: seq<byte>, dst: array<byte>, op: nat, anchor: nat, ip: nat, immediate: bool, limit: Limit)
    returns (outcome: Outcome, op': nat)
    requires op <= dst.Length && anchor <= ip && ip + MFLIMIT <= |buf|
    requires immediate ==> anchor == ip && op < dst.Length
    requires limit == NotLimited ==> op + LiteralCost(ip - anchor) + Overshoot(ip - anchor) <= dst.Length
    modifies dst
    ensures dst[..op] == old(dst[..op])
    ensures outcome == GiveUp ==>
      limit == LimitedOutput && op + 1 + (ip - anchor) + (2 + 1 + LASTLITERALS) + (ip - anchor) / 255 > dst.Length
    ensures outcome == ToLastLiterals ==> limit == FillOutput && op + LiteralCost(ip - anchor) + 11 > dst.Length
    ensures outcome == Done ==>
      && op' == op + LiteralCost(ip - anchor) <= dst.Length
      && Headed(dst[..op'], old(dst[..op]), buf, anchor, ip)
      && (limit == LimitedOutput && !immediate ==> op' + 2 <= dst.Length)
  {
    if immediate {
      dst[op] := 0;
      assert dst[..op + 1] == old(dst[..op]) + [Token(0, 0)] + Extension(0) + buf[anchor..ip];
      return Done, op + 1;
    }
    var litLength := ip - anchor;
    op' := op + 1;
    if limit == LimitedOutput && op' + litLength + (2 + 1 + LASTLITERALS) + litLength / 255 > dst.Length {
      return GiveUp, op;
    }
    if limit == FillOutput
      && op' + (litLength + 240) / 255 + litLength + 2 + 1 + MFLIMIT - MINMATCH > dst.Length
    {
      return ToLastLiterals, op;
    }
    op' := EmitLiterals(buf, dst, op, anchor, ip);
    assert dst[..op] == dst[..op'][..op];
    outcome := Done;
  }

  /** Offset and match length of the sequence whose token is at `token`.  A filling
      compressor shortens a match whose length would not fit. */
  method EmitMatchFast(su: Setup, dst: array<byte>, token: nat, op: nat, ip: nat, m: nat, limit: Limit, ghost litLength: nat)
    returns (outcome: Outcome, op': nat, matchCode: nat)
    requires token < op <= dst.Length && dst[token] == Token(litLength, 0)
    requires m < ip && ip - m <= DISTANCE_MAX && su.start <= ip && ip + MINMATCH + LASTLITERALS <= |su.buf|
    requires OneSegment(su, m)
    requires limit == LimitedOutput ==> op + 2 <= dst.Length
    requires limit == NotLimited ==>
      op + 2 + |Extension(CommonLength(su.buf, ip + MINMATCH, m + MINMATCH, |su.buf| - LASTLITERALS))| + 3 <= dst.Length
    modifies dst
    ensures dst[..token] == old(dst[..token])
    ensures outcome == GiveUp ==>
      var code := CommonLength(su.buf, ip + MINMATCH, m + MINMATCH, |su.buf| - LASTLITERALS);
      limit == LimitedOutput && op + 2 + (1 + LASTLITERALS) + (code + 240) / 255 > dst.Length
    ensures outcome == ToLastLiterals ==> limit == FillOutput && op + 11 > dst.Length
    ensures outcome == Done ==>
      && matchCode <= CommonLength(su.buf, ip + MINMATCH, m + MINMATCH, |su.buf| - LASTLITERALS)
      && (limit != FillOutput ==> matchCode == CommonLength(su.buf, ip + MINMATCH, m + MINMATCH, |su.buf| - LASTLITERALS))
      && (matchCode == CommonLength(su.buf, ip + MINMATCH, m + MINMATCH, |su.buf| - LASTLITERALS) || dst.Length == op' + 1 + LASTLITERALS)
      && (limit == FillOutput ==> op + 11 <= dst.Length)
      && (limit != NotLimited ==> op' + 1 + LASTLITERALS <= dst.Length)
      && (limit == FillOutput ==> op' + 1 + MFLIMIT - MINMATCH <= dst.Length || ML_MASK <= matchCode)
      && op' == op + 2 + |Extension(matchCode)| <= dst.Length
      && Patched(dst[..op'], old(dst[..op]), token, litLength, ip - m, matchCode)
  {
    hide OffsetBytes, Token, CommonLength, Extension;
    if limit == FillOutput && op + 2 + 1 + MFLIMIT - MINMATCH > dst.Length {
      return ToLastLiterals, op, 0;
    }
    op' := EmitOffset(dst, op, ip - m);
    var code := CountMatch(su, ip, m);
    var fits;
    fits, matchCode := FitMatch(code, op', dst.Length, limit);
    if !fits { return GiveUp, op', 0; }
    assert dst[token] == dst[..op'][token] == old(dst[..op])[token];
    ghost var head := dst[..op'];
    op' := EmitMatchLengthByWords(dst, token, op', matchCode, litLength);
    FrontOfUpdate(head, token, Token(litLength, matchCode));
    assert dst[..token] == head[token := Token(litLength, matchCode)][..token];
    outcome := Done;
  }

  lemma FrontOfUpdate(s: seq<byte>, i: nat, x: byte)
    requires i < |s|
    ensures s[i := x][..i] == s[..i]
  {
  }

  /** How much of a match may be written at `op`: all of it, nothing, or what fits. */
  method FitMatch(code: nat, op: nat, dstLength: nat, limit: Limit) returns (fits: bool, matchCode: nat)
    requires limit == NotLimited ==> op + |Extension(code)| + 3 <= dstLength
    requires limit == FillOutput ==> op + 1 + MFLIMIT - MINMATCH <= dstLength
    ensures !fits ==> limit == LimitedOutput && op + (1 + LASTLITERALS) + (code + 240) / 255 > dstLength
    ensures fits ==>
      && matchCode <= code && (limit != FillOutput ==> matchCode == code) && op + |Extension(matchCode)| + 3 <= dstLength
      && (matchCode == code || dstLength == op + |Extension(matchCode)| + 1 + LASTLITERALS)
      && (limit != NotLimited ==> op + |Extension(matchCode)| + 1 + LASTLITERALS <= dstLength)
      && (limit == FillOutput ==> op + |Extension(matchCode)| + 1 + MFLIMIT - MINMATCH <= dstLength || ML_MASK <= matchCode)
  {
    fits, matchCode := true, code;
    if limit != NotLimited && op + (1 + LASTLITERALS) + (code + 240) / 255 > dstLength {
      if limit == LimitedOutput { return false, 0; }
      matchCode := 15 - 1 + (dstLength - op - 1 - LASTLITERALS) * 255;
    }
  }

  /** The bytes of one sequence.  Its match is the whole match at `ip`, except that a
      filling compressor may shorten it. */
  method EmitBytes(su: Setup, dst: array<byte>, op: nat, anchor: nat, ip: nat, m: nat, immediate: bool, limit: Limit)
    returns (outcome: Outcome, op': nat, matchCode: nat)
    requires op <= dst.Length && su.start <= anchor <= ip && ip + MFLIMIT <= |su.buf| && m < ip && ip - m <= DISTANCE_MAX
    requires immediate ==> anchor == ip && (limit != NotLimited ==> op + 1 + LASTLITERALS <= dst.Length)
    requires OneSegment(su, m)
    requires limit == NotLimited ==>
      var code := CommonLength(su.buf, ip + MINMATCH, m + MINMATCH, |su.buf| - LASTLITERALS);
      HasRoom(dst.Length, op, ip - anchor, MINMATCH + code) && op + SequenceCost(ip - anchor, MINMATCH + code) + 3 <= dst.Length
    modifies dst
    ensures op' <= dst.Length && dst[..op] == old(dst[..op])
    ensures outcome == GiveUp ==>
      var code := CommonLength(su.buf, ip + MINMATCH, m + MINMATCH, |su.buf| - LASTLITERALS);
      limit == LimitedOutput && op + SequenceCost(ip - anchor, MINMATCH + code) + 1 + LASTLITERALS > dst.Length
    ensures outcome == ToLastLiterals ==> limit == FillOutput && op' == op
    ensures limit == FillOutput ==> (outcome == Done <==> op + LiteralCost(ip - anchor) + 11 <= dst.Length)
    ensures outcome == Done ==>
      && matchCode <= CommonLength(su.buf, ip + MINMATCH, m + MINMATCH, |su.buf| - LASTLITERALS)
      && (limit != FillOutput ==> matchCode == CommonLength(su.buf, ip + MINMATCH, m + MINMATCH, |su.buf| - LASTLITERALS))
      && (matchCode == CommonLength(su.buf, ip + MINMATCH, m + MINMATCH, |su.buf| - LASTLITERALS) || dst.Length == op' + 1 + LASTLITERALS)
      && (limit != NotLimited ==> op' + 1 + LASTLITERALS <= dst.Length)
      && (limit == FillOutput ==> op' + 1 + MFLIMIT - MINMATCH <= dst.Length || ML_MASK <= matchCode)
      && dst[..op'] == old(dst[..op]) + EncodeSequence(Sequence(su.buf[anchor..ip], ip - m, MINMATCH + matchCode))
  {
    hide EncodeSequence, Token, Extension, OffsetBytes, CommonLength, OneSegment, LiteralCost, SequenceCost, Headed, Patched;
    ghost var pre := dst[..op];
    Costs(ip - anchor, CommonLength(su.buf, ip + MINMATCH, m + MINMATCH, |su.buf| - LASTLITERALS));
    outcome, op' := EmitLiteralsFast(su.buf, dst, op, anchor, ip, immediate, limit);
    matchCode := 0;
    if outcome != Done { op' := op; return; }
    ghost var head := dst[..op'];
    HeadedFront(head, pre, su.buf, anchor, ip);
    assert dst[op] == head[op];
    outcome, op', matchCode := EmitMatchFast(su, dst, op, op', ip, m, limit, ip - anchor);
    if outcome != Done { op' := op; return; }
    WholeSequence(dst[..op'], head, pre, su.buf, anchor, ip, ip - m, matchCode);
  }

  lemma Costs(litLength: nat, code: nat)
    ensures SequenceCost(litLength, MINMATCH + code) == LiteralCost(litLength) + 2 + |Extension(code)|
    ensures 1 + litLength + litLength / 255 <= LiteralCost(litLength) && |Extension(code)| == (code + 240) / 255
    ensures litLength == 0 ==> LiteralCost(litLength) == 1
  {
  }

  /** The parse `ss`, the literals from `anchor` and the match at `ip` that ends at `end`. */
  function WithMatch(buf: seq<byte>, ss: seq<Sequence>, anchor: nat, ip: nat, m: nat, end: nat): seq<Sequence>
    requires anchor <= ip <= |buf| && m <= ip <= end
  {
    ss + [Sequence(buf[anchor..ip], ip - m, end - ip)]
  }

  /** One sequence: literals from `anchor`, then the match at `ip`, of which `known`
      bytes have been compared.  It is a `whole` match unless the destination is full. */
  method EmitSequence(su: Setup, dst: array<byte>, op: nat, anchor: nat, ip: nat, m: nat, ghost known: nat,
                      immediate: bool, limit: Limit, ghost ss: seq<Sequence>)
    returns (outcome: Outcome, op': nat, ip': nat, ghost ss': seq<Sequence>, ghost end: nat, ghost whole: bool, ghost b: Block)
    requires su.start <= anchor <= ip && Output(su.buf, su.start, dst, op, anchor, limit, ss)
    requires immediate ==> anchor == ip && (limit != NotLimited ==> op + 1 + LASTLITERALS <= dst.Length)
    requires IsMatch(su.buf, ip, m, known, |su.buf|) && MINMATCH <= known && ip + known + 8 <= |su.buf|
    requires OneSegment(su, m)
    modifies dst
    ensures m < ip && ip + MINMATCH <= end && end + LASTLITERALS <= |su.buf|
    ensures outcome == GiveUp ==>
      && limit == LimitedOutput && whole && TooBig(su.buf, su.start, b, dst.Length, false)
      && b.sequences == WithMatch(su.buf, ss, anchor, ip, m, end) && |b.last| == |su.buf| - end
    ensures outcome == ToLastLiterals ==>
      limit == FillOutput && op' == op && ss' == ss && Output(su.buf, su.start, dst, op, anchor, limit, ss)
    ensures limit == FillOutput ==> (outcome == Done <==> op + LiteralCost(ip - anchor) + 11 <= dst.Length)
    ensures outcome == Done ==>
      && ip' == end && Output(su.buf, su.start, dst, op', ip', limit, ss') && ss' == WithMatch(su.buf, ss, anchor, ip, m, end) && ss' != []
      && (limit != NotLimited ==> op' + 1 + LASTLITERALS <= dst.Length)
      && (limit != FillOutput ==> whole) && (whole || dst.Length == op' + 1 + LASTLITERALS)
    ensures whole ==> ip + known <= end && CannotGrow(su.buf, ip - m, end)
  {
    hide WithMatch, CannotGrow, IsMatch, Emitted, EncodeSequence, CanEnd, CommonLength, Usable, OneSegment, HasRoom, SequenceCost,
      CompressBound, TooBig, LiteralCost;
    InWindow(su.buf, ip, m, known);
    ghost var code := CommonLength(su.buf, ip + MINMATCH, m + MINMATCH, |su.buf| - LASTLITERALS);
    WholeMatch(su.buf, ip, m, known, code);
    if CompressBound(|su.buf| - su.start) <= dst.Length {
      BoundHasRoom(su.buf, su.start, dst[..op], anchor, ss, Match(ip, m, MINMATCH + code), dst.Length);
    }
    ghost var pre := dst[..op];
    ip', ss', end, whole, b := ip, ss, ip + MINMATCH + code, true, Block([], []);
    UsableRef(su.buf, Match(ip, m, MINMATCH + code));
    var matchCode;
    outcome, op', matchCode := EmitBytes(su, dst, op, anchor, ip, m, immediate, limit);
    if outcome == Done {
      SequenceAdded(su.buf, su.start, pre, anchor, ss, ip, m, code, matchCode);
      ip', end, whole := ip + MINMATCH + matchCode, ip + MINMATCH + matchCode, matchCode == code;
      ss' := WithMatch(su.buf, ss, anchor, ip, m, end);
      if limit == FillOutput { EnoughRoomToEnd(dst.Length, op', ss', matchCode); }
    } else if outcome == GiveUp {
      b := GivenUp(su.buf, su.start, pre, anchor, ss, Match(ip, m, MINMATCH + code), dst.Length);
      SameSequence(su.buf, ss, anchor, Match(ip, m, MINMATCH + code));
    }
  }

  lemma SameSequence(buf: seq<byte>, ss: seq<Sequence>, anchor: nat, m: Match)
    requires anchor <= m.start <= |buf| && m.ref <= m.start
    ensures WithMatch(buf, ss, anchor, m.start, m.ref, m.End()) == ss + [SequenceOf(buf, anchor, m)]
  {
  }

  /** The parse grows by a match of which `matchCode` of `code` extra bytes are used. */
  lemma SequenceAdded(buf: seq<byte>, start: nat, pre: seq<byte>, anchor: nat, ss: seq<Sequence>, ip: nat, m: nat, code: nat, matchCode: nat)
    requires Emitted(buf, start, pre, anchor, ss) && anchor <= ip && m < ip && ip - m <= DISTANCE_MAX
    requires Usable(buf, Match(ip, m, MINMATCH + code)) && matchCode <= code
    ensures ip + MINMATCH + matchCode + LASTLITERALS <= |buf|
    ensures var s := Sequence(buf[anchor..ip], ip - m, MINMATCH + matchCode);
            Emitted(buf, start, pre + EncodeSequence(s), ip + MINMATCH + matchCode, WithMatch(buf, ss, anchor, ip, m, ip + MINMATCH + matchCode))
    ensures var ss' := WithMatch(buf, ss, anchor, ip, m, ip + MINMATCH + matchCode);
            ss' != [] && ss'[|ss'| - 1].matchLength == MINMATCH + matchCode
  {
    hide Emitted, IsMatch;
    Shortened(buf, Match(ip, m, MINMATCH + code), MINMATCH + matchCode);
    EmittedExtends(buf, start, pre, anchor, ss, Match(ip, m, MINMATCH + matchCode));
  }

  lemma InWindow(buf: seq<byte>, ip: nat, m: nat, known: nat)
    requires IsMatch(buf, ip, m, known, |buf|)
    ensures m < ip && ip - m <= DISTANCE_MAX
  {
  }

  lemma EnoughRoomToEnd(dstLength: nat, op: nat, ss: seq<Sequence>, matchCode: nat)
    requires ss != [] && ss[|ss| - 1].matchLength == MINMATCH + matchCode
    requires op + 1 + LASTLITERALS <= dstLength
    requires op + 1 + MFLIMIT - MINMATCH <= dstLength || ML_MASK <= matchCode
    ensures CanEnd(dstLength, op, ss)
  {
  }

  // ----- The compressor -----

  /** Empties the buckets of the positions in [ip, filledIp], so that the table again
      holds only positions before `ip`. */
  method ClearPositions(su: Setup, table: array<nat>, ip: nat, filledIp: nat)
    requires su.shift == 0 && su.start == 0 && 1 <= ip && Indexed(su, table, filledIp + 1) && Bucketed(su, table)
    modifies table
    ensures Indexed(su, table, ip) && Bucketed(su, table)
  {
    var ptr := ip;
    while ptr <= filledIp
      invariant ip <= ptr
      invariant Indexed(su, table, if ip <= filledIp then filledIp + 1 else ip) && Bucketed(su, table)
      invariant forall h :: 0 <= h < table.Length ==> table[h] < ip || ptr <= table[h]
    {
      table[su.hash(ptr)] := 0;
      ptr := ptr + 1;
    }
  }

  /** After a match: indexes `ip - 2` and `ip`, and tells whether a match follows at
      once. */
  method TestNext(su: Setup, table: array<nat>, ip: nat, ghost before: seq<nat>, ghost trace: seq<Move>)
    returns (found: bool, m: nat, ghost trace': seq<Move>)
    requires SetupOk(su) && Indexed(su, table, ip) && su.start + 2 <= ip && ip + MFLIMIT <= |su.buf|
    requires Tracked(su, before, trace, table[..], ip - 2)
    modifies table
    ensures Indexed(su, table, ip + 1) && (old(Bucketed(su, table)) ==> Bucketed(su, table))
    ensures UnhitKept(su, old(table[..]), table[..])
    ensures found ==> IsMatch(su.buf, ip, m, MINMATCH, |su.buf|) && OneSegment(su, m)
    ensures Tracked(su, before, trace', table[..], ip + 1)
    ensures trace' == trace + [Entered(ip - 2), if found then Hit(ip) else Missed(ip)]
  {
    hide Stored, UnhitKept, Tracked;
    ghost var was := table[..];
    Put(su, table, ip - 2, ip);
    Moves(su, before, trace, was, Entered(ip - 2), table[..]);
    StillTracked(su, before, trace + [Entered(ip - 2)], table[..], ip - 1, ip);
    var e := table[su.hash(ip)];
    was := table[..];
    Put(su, table, ip, ip);
    StillKept(su, old(table[..]), was, table[..]);
    found, m := TestCandidate(su, e, ip);
    ghost var t := if found then Hit(ip) else Missed(ip);
    Moves(su, before, trace + [Entered(ip - 2)], was, t, table[..]);
    trace' := trace + [Entered(ip - 2), t];
    assert trace' == trace + [Entered(ip - 2)] + [t];
  }

  /** The first sequence is the match of the second position with the bytes `offset` places
      before, which may grow by one byte backwards and is as long as it can be. */
  predicate BeginsWith(buf: seq<byte>, start: nat, offset: int, ss: seq<Sequence>) {
    && ss != [] && |ss[0].literals| <= 1 && ss[0].offset == offset
    && CannotGrow(buf, ss[0].offset, start + |ss[0].literals| + ss[0].matchLength)
  }

  /** The first candidate, if it is the place of a match, is not missed. */
  predicate FirstIsUsed(su: Setup, e: nat, ss: seq<Sequence>) {
    Taken(su, e, su.start + 1) ==> BeginsWith(su.buf, su.start, su.start + 1 + su.shift - e, ss)
  }

  /** The search at the second position starts with what its bucket held. */
  predicate FirstSearch(su: Setup, before: seq<nat>, ss: seq<Sequence>) {
    var h := su.hash(su.start + 1);
    su.hash(su.start) != h && h < |before| ==> FirstIsUsed(su, before[h], ss)
  }

  lemma FirstStaysUsed(su: Setup, e: nat, ss: seq<Sequence>, anchor: nat, ip: nat, m: nat, end: nat)
    requires anchor <= ip <= |su.buf| && m <= ip <= end && CannotGrow(su.buf, ip - m, end)
    requires if ss == [] then anchor == su.start else FirstIsUsed(su, e, ss)
    requires ss == [] && Taken(su, e, su.start + 1) ==> ip <= su.start + 1 && ip - m + e == su.start + 1 + su.shift
    ensures FirstIsUsed(su, e, WithMatch(su.buf, ss, anchor, ip, m, end)) && WithMatch(su.buf, ss, anchor, ip, m, end) != []
  {
    hide CannotGrow, Taken;
    if ss != [] {
      assert WithMatch(su.buf, ss, anchor, ip, m, end)[0] == ss[0];
    }
  }

  lemma FirstIsNot(su: Setup, e: nat)
    requires !Taken(su, e, su.start + 1)
    ensures FirstIsUsed(su, e, [])
  {
  }

  /** The state at the head of the main loop: a search goes on at `ip`, or a match at `ip`
      is known already. */
  ghost predicate Searching(su: Setup, table: array<nat>, dst: array<byte>, op: nat, anchor: nat, ip: nat, m: nat, immediate: bool,
                            limit: Limit, ss: seq<Sequence>)
    reads table, dst
  {
    && Output(su.buf, su.start, dst, op, anchor, limit, ss)
    && su.start <= anchor <= ip && su.start + 1 <= ip && ip + MFLIMIT <= |su.buf| + 1
    && (limit == FillOutput ==> su.start == 0 && su.shift == 0 && Bucketed(su, table))
    && Indexed(su, table, if immediate then ip + 1 else ip) && (!immediate ==> ip == anchor + 1)
    && (immediate ==>
          && anchor == ip && ip + MFLIMIT <= |su.buf| && IsMatch(su.buf, ip, m, MINMATCH, |su.buf|) && OneSegment(su, m)
          && (limit != NotLimited ==> op + 1 + LASTLITERALS <= dst.Length))
  }

  /** `e` is the first candidate, still to be tested or tested already. */
  ghost predicate FirstIsSeen(su: Setup, table: array<nat>, e: nat, anchor: nat, ip: nat, immediate: bool, limit: Limit, ss: seq<Sequence>)
    reads table
  {
    if ss == [] then anchor == su.start && ip == su.start + 1 && !immediate && su.hash(ip) < table.Length && table[su.hash(ip)] == e
    else su.start + MINMATCH <= anchor && (limit != FillOutput ==> FirstIsUsed(su, e, ss))
  }

  /** The runs up to `anchor` are scanned.  A trace is kept until a match has been cut to
      fill the destination: no other sequence fits behind it. */
  ghost predicate Watched(su: Setup, acceleration: nat, before: seq<nat>, trace: seq<Move>, live: bool, table: seq<nat>,
                          room: nat, op: nat, anchor: nat, ip: nat, immediate: bool, ss: seq<Sequence>)
    requires 1 <= acceleration
  {
    && Recorded(su, before, trace) && RunsScanned(su, acceleration, trace, anchor, ss, live)
    && if live
    then Tracked(su, before, trace, table, if immediate then ip + 1 else ip) && (immediate || anchor == su.start || Missed(anchor) in trace)
    else room < op + 12
  }

  /** The last run is scanned up to the end of the source, or as far as there is room. */
  ghost predicate LastScanned(su: Setup, acceleration: nat, trace: seq<Move>, anchor: nat, op: nat, room: nat, limit: Limit)
    requires 1 <= acceleration
  {
    || RunScanned(su, acceleration, trace, anchor, |su.buf|)
    || (limit == FillOutput
        && exists stop :: anchor <= stop && RunScanned(su, acceleration, trace, anchor, stop) && room < op + LiteralCost(stop - anchor) + 11)
  }

  /** Where the next match starts: found by the scan, and grown backwards, or known already. */
  method NextMatch(su: Setup, table: array<nat>, anchor: nat, ip: nat, m: nat, immediate: bool, acceleration: nat,
                   ghost before: seq<nat>, ghost trace: seq<Move>, ghost live: bool)
    returns (found: bool, filledIp: nat, ip': nat, m': nat, ghost trace': seq<Move>)
    requires SetupOk(su) && 1 <= acceleration && su.start <= anchor && ip + MFLIMIT <= |su.buf| + 1
    requires Indexed(su, table, if immediate then ip + 1 else ip) && (!immediate ==> ip == anchor + 1)
    requires immediate ==> anchor == ip && ip + MFLIMIT <= |su.buf| && IsMatch(su.buf, ip, m, MINMATCH, |su.buf|) && OneSegment(su, m)
    requires Recorded(su, before, trace)
    requires live ==> Tracked(su, before, trace, table[..], if immediate then ip + 1 else ip)
    requires live ==> immediate || anchor == su.start || Missed(anchor) in trace
    modifies table
    ensures !immediate && ip + MFLIMIT <= |su.buf| && old(Taken(su, table[su.hash(ip)], ip)) ==>
      found && filledIp == ip && ip - ip' + m' + su.shift == old(table[su.hash(ip)])
    ensures !immediate && ip + MFLIMIT == |su.buf| ==> table[su.hash(ip)] == Stored(su, ip)
    ensures UnhitKept(su, old(table[..]), table[..])
    ensures Indexed(su, table, if found then filledIp + 1 else |su.buf| - MFLIMIT + 1) && (old(Bucketed(su, table)) ==> Bucketed(su, table))
    ensures immediate ==> found && filledIp == ip' == ip && m' == m
    ensures found ==>
      && anchor <= ip' <= filledIp && ip <= filledIp && filledIp + MFLIMIT <= |su.buf|
      && IsMatch(su.buf, ip', m', MINMATCH + (filledIp - ip'), |su.buf|) && OneSegment(su, m')
    ensures trace <= trace' && Recorded(su, before, trace')
    ensures live ==> Tracked(su, before, trace', table[..], if found then filledIp + 1 else |su.buf|)
    ensures live ==> RunScanned(su, acceleration, trace', anchor, if found then ip' else |su.buf|)
    ensures found ==> m' <= ip' && StartsEarly(su, ip', ip' - m', ip' - anchor)
  {
    hide IsMatch, OneSegment, Taken, Stored, UnhitKept, Tracked, Recorded, RunScanned, Scanned, EntryOk, Bucketed, SetupOk, StartsEarly;
    found, filledIp, ip', m', trace' := true, ip, ip, m, trace;
    AllKept(su, table[..]);
    if immediate {
      NoRun(su, acceleration, trace, anchor);
      InWindow(su.buf, ip, m, MINMATCH);
      AtOnce(su, ip, ip - m);
      return;
    }
    ghost var b0, t0 := if live then before else table[..], if live then trace else [];
    NoMoves(su, table[..], ip);
    found, filledIp, m', t0 := FindMatch(su, table, ip, acceleration, b0, t0);
    if found {
      InWindow(su.buf, filledIp, m', MINMATCH);
      ip', m' := CatchUp(su, anchor, filledIp, m');
    }
    if live {
      TrackedIsRecorded(su, before, t0, table[..], if found then filledIp + 1 else filledIp);
      RunFound(su, acceleration, trace, t0, anchor, if found then ip' else |su.buf|, if found then filledIp else |su.buf|);
      StillTracked(su, before, t0, table[..], if found then filledIp + 1 else filledIp, if found then filledIp + 1 else |su.buf|);
      trace' := t0;
    }
  }

  lemma TrackedIsRecorded(su: Setup, before: seq<nat>, trace: seq<Move>, table: seq<nat>, p: nat)
    requires Tracked(su, before, trace, table, p)
    ensures Recorded(su, before, trace)
  {
  }

  /** One sequence: the next match is searched and grows backwards, unless one is known
      already, and is emitted. */
  method NextSequence(su: Setup, table: array<nat>, dst: array<byte>, op: nat, anchor: nat, ip: nat, m: nat, immediate: bool,
                      limit: Limit, acceleration: nat, ghost ss: seq<Sequence>, ghost e: nat,
                      ghost before: seq<nat>, ghost trace: seq<Move>, ghost live: bool)
    returns (outcome: Outcome, op': nat, ip': nat, ghost ss': seq<Sequence>, ghost trace': seq<Move>, ghost live': bool, ghost b: Block)
    requires Searching(su, table, dst, op, anchor, ip, m, immediate, limit, ss)
    requires SetupOk(su) && 1 <= acceleration && su.start + MFLIMIT < |su.buf|
    requires FirstIsSeen(su, table, e, anchor, ip, immediate, limit, ss) && table as object != dst as object
    requires Watched(su, acceleration, before, trace, live, table[..], dst.Length, op, anchor, ip, immediate, ss) && (limit != FillOutput ==> live)
    modifies table, dst
    ensures outcome == GiveUp ==> limit == LimitedOutput && DoesNotFit(su, acceleration, before, b, dst.Length)
    ensures Indexed(su, table, |su.buf| - MFLIMIT + 1) && (limit == FillOutput ==> Bucketed(su, table))
    ensures outcome == ToLastLiterals ==>
      && op' == op && ss' == ss && live' == live && Output(su.buf, su.start, dst, op, anchor, limit, ss)
      && (limit != FillOutput && ss == [] ==> FirstIsUsed(su, e, []))
      && Recorded(su, before, trace') && RunsScanned(su, acceleration, trace', anchor, ss, live)
      && LastScanned(su, acceleration, trace', anchor, op, dst.Length, limit)
    ensures outcome == Done ==>
      && Output(su.buf, su.start, dst, op', ip', limit, ss') && ss' != [] && (limit != FillOutput ==> FirstIsUsed(su, e, ss'))
      && anchor + MINMATCH <= ip' && ip' + LASTLITERALS <= |su.buf| && Indexed(su, table, ip')
      && (limit != NotLimited ==> op' + 1 + LASTLITERALS <= dst.Length)
    ensures outcome == Done ==>
      && Recorded(su, before, trace') && RunsScanned(su, acceleration, trace', ip', ss', live') && (limit != FillOutput ==> live')
      && if live' then Tracked(su, before, trace', table[..], ip' - 2) else dst.Length < op' + 12
    ensures !immediate && limit != FillOutput && ip + MFLIMIT == |su.buf| ==> table[su.hash(ip)] == Stored(su, ip)
    ensures limit != FillOutput ==> UnhitKept(su, old(table[..]), table[..])
  {
    hide UnhitKept, IsMatch, Emitted, CanEnd, EntryOk, Bucketed, OneSegment, FirstIsUsed, Taken, Stored, WithMatch, CannotGrow, CompressBound,
      Tracked, Recorded, RunsScanned, RunScanned, StartsEarly, TooBig, DoesNotFit, LastScanned;
    op', ip', ss', live', b := op, ip, ss, live, Block([], []);
    var found, filledIp, ip1, m1;
    found, filledIp, ip1, m1, trace' := NextMatch(su, table, anchor, ip, m, immediate, acceleration, before, trace, live);
    RunsLater(su, acceleration, trace, trace', anchor, ss, live);
    if !found {
      if ss == [] { FirstIsNot(su, e); }
      EndScanned(su, acceleration, trace', anchor, op, dst.Length, limit, if live then |su.buf| else anchor);
      return ToLastLiterals, op, ip, ss, trace', live, b;
    }
    InWindow(su.buf, ip1, m1, MINMATCH + (filledIp - ip1));
    ghost var end, whole;
    outcome, op', ip', ss', end, whole, b := EmitSequence(su, dst, op, anchor, ip1, m1, MINMATCH + (filledIp - ip1), immediate, limit, ss);
    if outcome == Done {
      if limit != FillOutput { FirstStaysUsed(su, e, ss, anchor, ip1, m1, ip'); }
      live' := whole;
      SequenceScanned(su, acceleration, trace', anchor, ss, ip1, m1, ip', whole);
      if whole { StillTracked(su, before, trace', table[..], filledIp + 1, ip' - 2); }
      if ip' <= filledIp { ClearPositions(su, table, ip', filledIp); }
    } else if outcome == GiveUp {
      SequenceScanned(su, acceleration, trace', anchor, ss, ip1, m1, end, whole);
      GaveUp(su, acceleration, before, trace', end, b, dst.Length);
    } else {
      EndScanned(su, acceleration, trace', anchor, op, dst.Length, limit, if live then ip1 else anchor);
    }
  }

  lemma EndScanned(su: Setup, acceleration: nat, trace: seq<Move>, anchor: nat, op: nat, room: nat, limit: Limit, stop: nat)
    requires 1 <= acceleration && anchor <= stop && (stop == anchor || RunScanned(su, acceleration, trace, anchor, stop))
    requires stop == |su.buf| || (limit == FillOutput && room < op + LiteralCost(stop - anchor) + 11)
    ensures LastScanned(su, acceleration, trace, anchor, op, room, limit)
  {
    hide RunScanned;
    if stop == anchor { NoRun(su, acceleration, trace, anchor); }
  }

  lemma SequenceScanned(su: Setup, acceleration: nat, trace: seq<Move>, anchor: nat, ss: seq<Sequence>, ip: nat, m: nat, end: nat, whole: bool)
    requires 1 <= acceleration && RunsScanned(su, acceleration, trace, anchor, ss, true)
    requires anchor <= ip <= |su.buf| && m <= ip <= end && RunScanned(su, acceleration, trace, anchor, ip)
    requires StartsEarly(su, ip, ip - m, ip - anchor) && (whole ==> CannotGrow(su.buf, ip - m, end))
    ensures RunsScanned(su, acceleration, trace, end, WithMatch(su.buf, ss, anchor, ip, m, end), whole)
  {
    hide CannotGrow, RunScanned, RunsScanned, StartsEarly;
    RunsExtend(su, acceleration, trace, anchor, ss, Match(ip, m, end - ip), whole);
  }

  lemma GaveUp(su: Setup, acceleration: nat, before: seq<nat>, trace: seq<Move>, end: nat, b: Block, room: nat)
    requires 1 <= acceleration && TooBig(su.buf, su.start, b, room, false) && Recorded(su, before, trace)
    requires RunsScanned(su, acceleration, trace, end, b.sequences, true) && end + |b.last| == |su.buf|
    ensures DoesNotFit(su, acceleration, before, b, room)
  {
    hide RunScanned, RunsScanned, Recorded, TooBig;
    NoRun(su, acceleration, trace, end);
    PerhapsNotWhole(su, acceleration, trace, end, b.sequences, true, |b.last| == 0);
    IsThorough(su, acceleration, before, trace, |su.buf|, b, |b.last|);
  }

  lemma NoRuns(su: Setup, acceleration: nat, trace: seq<Move>)
    requires 1 <= acceleration
    ensures RunsScanned(su, acceleration, trace, su.start, [], true)
  {
  }

  lemma PerhapsNotWhole(su: Setup, acceleration: nat, trace: seq<Move>, anchor: int, ss: seq<Sequence>, whole: bool, whole': bool)
    requires 1 <= acceleration && RunsScanned(su, acceleration, trace, anchor, ss, whole) && (whole' ==> whole)
    ensures RunsScanned(su, acceleration, trace, anchor, ss, whole')
  {
  }

  /** TestNext, with the trace as long as it is kept. */
  method NextPosition(su: Setup, table: array<nat>, ip: nat, ghost acceleration: nat, ghost before: seq<nat>, ghost trace: seq<Move>, ghost live: bool,
                      ghost room: nat, ghost op: nat, ghost ss: seq<Sequence>)
    returns (found: bool, m: nat, ghost trace': seq<Move>)
    requires SetupOk(su) && Indexed(su, table, ip) && su.start + 2 <= ip && ip + MFLIMIT <= |su.buf| && 1 <= acceleration
    requires Recorded(su, before, trace) && RunsScanned(su, acceleration, trace, ip, ss, live)
    requires if live then Tracked(su, before, trace, table[..], ip - 2) else room < op + 12
    modifies table
    ensures Indexed(su, table, ip + 1) && (old(Bucketed(su, table)) ==> Bucketed(su, table))
    ensures UnhitKept(su, old(table[..]), table[..])
    ensures found ==> IsMatch(su.buf, ip, m, MINMATCH, |su.buf|) && OneSegment(su, m)
    ensures Watched(su, acceleration, before, trace', live, table[..], room, op, ip, if found then ip else ip + 1, found, ss)
  {
    hide Stored, UnhitKept, Tracked, Recorded, RunsScanned, IsMatch, OneSegment, Bucketed, EntryOk, SetupOk;
    ghost var b0, t0 := if live then before else table[..], if live then trace else [];
    NoMoves(su, table[..], ip - 2);
    trace' := trace;
    found, m, t0 := TestNext(su, table, ip, b0, t0);
    if live {
      trace' := t0;
      TrackedIsRecorded(su, before, trace', table[..], ip + 1);
      RunsLater(su, acceleration, trace, trace', ip, ss, live);
    }
  }

  /** The first byte and the main loop: sequences until the margin, or until the output is
      full. */
  method MainLoop(su: Setup, table: array<nat>, dst: array<byte>, limit: Limit, acceleration: nat)
    returns (ok: bool, op: nat, anchor: nat, ghost ss: seq<Sequence>, ghost trace: seq<Move>, ghost b: Block)
    requires SetupOk(su) && Indexed(su, table, su.start + 1) && 1 <= acceleration && su.start + MFLIMIT < |su.buf|
    requires table as object != dst as object
    requires limit == FillOutput ==> su.start == 0 && su.shift == 0 && Bucketed(su, table)
    requires Output(su.buf, su.start, dst, 0, su.start, limit, [])
    modifies table, dst
    ensures !ok ==> limit == LimitedOutput && DoesNotFit(su, acceleration, old(table[..]), b, dst.Length)
    ensures ok ==> Output(su.buf, su.start, dst, op, anchor, limit, ss)
    ensures ok ==>
      && Recorded(su, old(table[..]), trace) && RunsScanned(su, acceleration, trace, anchor, ss, limit != FillOutput)
      && LastScanned(su, acceleration, trace, anchor, op, dst.Length, limit)
    ensures Indexed(su, table, |su.buf| - MFLIMIT + 1)
    ensures ok && limit != FillOutput ==> FirstSearch(su, old(table[..]), ss)
    ensures limit != FillOutput && su.start + MFLIMIT + 1 == |su.buf| ==> table[su.hash(su.start + 1)] == Stored(su, su.start + 1)
    ensures limit != FillOutput ==> UnhitKept(su, old(table[..]), table[..])
  {
    hide UnhitKept, IsMatch, Emitted, CanEnd, EntryOk, Bucketed, OneSegment, FirstIsUsed, Taken, Stored, CompressBound,
      Tracked, Recorded, RunsScanned, RunScanned, DoesNotFit, LastScanned;
    ok, op, anchor, ss := true, 0, su.start, [];
    ghost var before, live := table[..], true;
    NoMoves(su, before, su.start);
    Put(su, table, su.start, su.start + 1);
    Moves(su, before, [], before, Entered(su.start), table[..]);
    trace := [] + [Entered(su.start)];
    NoRuns(su, acceleration, trace);
    TrackedIsRecorded(su, before, trace, table[..], su.start + 1);
    ghost var e := table[su.hash(su.start + 1)];
    var ip: nat, m: nat, immediate := su.start + 1, 0, false;
    while true
      invariant Searching(su, table, dst, op, anchor, ip, m, immediate, limit, ss)
      invariant FirstIsSeen(su, table, e, anchor, ip, immediate, limit, ss)
      invariant limit != FillOutput ==> UnhitKept(su, before, table[..])
      invariant Watched(su, acceleration, before, trace, live, table[..], dst.Length, op, anchor, ip, immediate, ss)
      invariant limit != FillOutput ==> live
      decreases |su.buf| - anchor
    {
      ghost var was := table[..];
      var outcome;
      outcome, op, ip, ss, trace, live, b :=
        NextSequence(su, table, dst, op, anchor, ip, m, immediate, limit, acceleration, ss, e, before, trace, live);
      if limit != FillOutput { StillKept(su, before, was, table[..]); }
      if outcome == GiveUp { return false, op, anchor, ss, trace, b; }
      if outcome == ToLastLiterals {
        PerhapsNotWhole(su, acceleration, trace, anchor, ss, live, limit != FillOutput);
        return;
      }
      anchor := ip;
      if ip + MFLIMIT > |su.buf| {
        NothingToScan(su, acceleration, trace, anchor);
        EndScanned(su, acceleration, trace, anchor, op, dst.Length, limit, |su.buf|);
        PerhapsNotWhole(su, acceleration, trace, anchor, ss, live, limit != FillOutput);
        return;
      }
      was := table[..];
      immediate, m, trace := NextPosition(su, table, ip, acceleration, before, trace, live, dst.Length, op, ss);
      if limit != FillOutput { StillKept(su, before, was, table[..]); }
      if !immediate { ip := ip + 1; }
    }
  }
  /** LZ4_compress_generic_validated.  Whatever the hash function and the contents of
      the table, the result is a block that every decoder accepts and that stands for
      the consumed part of the source. */
  method CompressValidated(su: Setup, table: array<nat>, dst: array<byte>, limit: Limit, acceleration: nat)
    returns (result: nat, consumed: nat, ghost b: Block)
    requires SetupOk(su) && Indexed(su, table, su.start + 1) && 1 <= acceleration
    requires table as object != dst as object
    requires limit == NotLimited ==> CompressBound(|su.buf| - su.start) <= dst.Length
    requires limit == FillOutput ==> 1 <= dst.Length && su.start == 0 && su.shift == 0 && Bucketed(su, table)
    modifies table, dst
    ensures result == 0 ==> limit == LimitedOutput && DoesNotFit(su, acceleration, old(table[..]), b, dst.Length)
    ensures 0 < result ==> result <= dst.Length && IsBlockOf(su.buf, su.start, consumed, dst[..result], b)
    ensures 0 < result && limit != FillOutput ==> consumed == |su.buf| - su.start
    ensures 0 < result && limit == FillOutput ==> consumed == |su.buf| - su.start || dst.Length <= result + 1
    ensures 0 < result ==>
      Thorough(su, acceleration, old(table[..]), su.start + consumed, b, if limit == FillOutput then 10 else 0)
    ensures if |su.buf| - su.start <= MFLIMIT then table[..] == old(table[..])
            else Indexed(su, table, |su.buf| - MFLIMIT + 1)
    ensures 0 < result && |su.buf| - su.start <= MFLIMIT ==> b.sequences == []
    ensures 0 < result && limit != FillOutput && |su.buf| - su.start > MFLIMIT ==> FirstSearch(su, old(table[..]), b.sequences)
    ensures limit != FillOutput && |su.buf| - su.start == MFLIMIT + 1 ==>
      table[su.hash(su.start + 1)] == Stored(su, su.start + 1)
    ensures limit != FillOutput ==> UnhitKept(su, old(table[..]), table[..])
  {
    hide UnhitKept, Emitted, IsBlockOf, EntryOk, Bucketed, FirstSearch, Stored, CompressBound, Recorded, RunsScanned, LastScanned,
      DoesNotFit, Thorough, TooBig;
    var op: nat, anchor: nat, ok := 0, su.start, true;
    ghost var ss: seq<Sequence>, before, trace: seq<Move> := [], table[..], [];
    assert dst[..0] == [];
    NothingEmitted(su.buf, su.start);
    AllKept(su, table[..]);
    if |su.buf| - su.start > MFLIMIT {
      ok, op, anchor, ss, trace, b := MainLoop(su, table, dst, limit, acceleration);
      if !ok { return 0, 0, b; }
    }
    result, consumed, b := FinishBlock(su.buf, su.start, dst, op, anchor, limit, ss);
    BlockIsThorough(su, acceleration, before, trace, anchor, op, dst.Length, limit, ss, result, consumed, b);
  }

  lemma BlockIsThorough(su: Setup, acceleration: nat, before: seq<nat>, trace: seq<Move>, anchor: nat, op: nat, room: nat, limit: Limit,
                        ss: seq<Sequence>, result: nat, consumed: nat, b: Block)
    requires 1 <= acceleration && b.sequences == ss && (limit == FillOutput ==> op < room)
    requires |su.buf| - su.start > MFLIMIT ==>
      && Recorded(su, before, trace) && RunsScanned(su, acceleration, trace, anchor, ss, limit != FillOutput)
      && LastScanned(su, acceleration, trace, anchor, op, room, limit)
    requires result == 0 ==> limit == LimitedOutput && anchor + |b.last| == |su.buf| && TooBig(su.buf, su.start, b, room, true)
    requires 0 < result ==> anchor + |b.last| == su.start + consumed <= |su.buf|
    requires 0 < result && limit == FillOutput ==> |b.last| <= LastThatFits(room - op)
    ensures result == 0 ==> DoesNotFit(su, acceleration, before, b, room)
    ensures 0 < result ==> Thorough(su, acceleration, before, su.start + consumed, b, if limit == FillOutput then 10 else 0)
  {
    hide Recorded, RunsScanned, RunScanned, TooBig, LastThatFits;
    if |su.buf| - su.start > MFLIMIT {
      var end := if result == 0 then |su.buf| else su.start + consumed;
      var lag := if limit == FillOutput then 10 else 0;
      if RunScanned(su, acceleration, trace, anchor, |su.buf|) {
        RunShorter(su, acceleration, trace, anchor, |su.buf|, end - lag);
      } else {
        var stop :| anchor <= stop && RunScanned(su, acceleration, trace, anchor, stop) && room < op + LiteralCost(stop - anchor) + 11;
        DroppedFills(room, op, stop - anchor);
        RunShorter(su, acceleration, trace, anchor, stop, end - lag);
      }
      IsThorough(su, acceleration, before, trace, end, b, lag);
    }
  }
}
