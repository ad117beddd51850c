/** What a block of the HC compressor owes to its searches: the literals between the matches
    were searched, and no match was found there.

    `Searched` is told by the block and the source alone.  It holds the parsers to what the
    chains can find: a position whose chain the attempts reach to the end, and whose four
    bytes stand somewhere in its window, is not passed over as a literal, except near the
    ends of a run, where the parsers move and cut matches.
 */
module SearchedRuns {
  import opened BlockFormat
  import opened SourceParse
  import opened MatchCount
  import opened Emitter
  import opened BlockWriter
  import opened HashChain

  /** How a parser searches: the attempts of each search, the nearest match it compares, and
      how far behind a match and in front of one a literal may have been passed over; and
      whether it takes each match as long as it is, and looks for a wider one at its end. */
  datatype Diligence = Diligence(attempts: int, nearest: nat, lead: nat, lag: nat, whole: bool)

  /** No position in [lo, hi) whose search is exhaustive has a match. */
  ghost predicate Quiet(buf: seq<byte>, d: Diligence, lo: int, hi: int) {
    forall p: nat :: lo <= p < hi && p + MFLIMIT <= |buf| && Exhaustive(buf, p, d.attempts) ==> Matchless(buf, p, d.nearest)
  }

  /** Where the search of a run that starts at `anchor` is owed from. */
  function RunStart(d: Diligence, start: nat, anchor: int): int {
    if anchor == start then anchor else anchor + d.lead
  }

  /** All runs of literals in front of a match, for a parse that ends at `anchor`. */
  ghost predicate QuietRuns(buf: seq<byte>, d: Diligence, start: nat, anchor: int, ss: seq<Sequence>)
    decreases |ss|
  {
    if ss == [] then anchor == start
    else
      var s := ss[|ss| - 1];
      var a := anchor - s.matchLength - |s.literals|;
      && QuietRuns(buf, d, start, a, ss[..|ss| - 1])
      && Quiet(buf, d, RunStart(d, start, a), a + |s.literals| - d.lag)
  }

  /** A match as long as it may be. */
  predicate Whole(buf: seq<byte>, m: Match) {
    m.ref <= m.start && CannotGrow(buf, m.start - m.ref, m.End())
  }

  /** Two or three bytes before the end of a match no wider one is found that starts with it or
      later.  More than 128 attempts skip places in runs of one byte. */
  ghost predicate Unbeaten(buf: seq<byte>, attempts: int, start: nat, end: nat) {
    attempts <= 128 && start + MINMATCH <= end && end + MFLIMIT <= |buf| ==>
      || (Exhaustive(buf, end - 2, attempts) ==> NoWider(buf, end - 2, start, |buf| - LASTLITERALS, end - start))
      || (Exhaustive(buf, end - 3, attempts) ==> NoWider(buf, end - 3, start, |buf| - LASTLITERALS, end - start))
  }

  /** Matches are whole, but for those that another match follows after at most one byte, and
      unbeaten, but for those that another one follows after at most four; `gap` literals
      follow the last one, which ends at `anchor`. */
  ghost predicate WholeMatches(buf: seq<byte>, attempts: int, anchor: int, ss: seq<Sequence>, gap: int)
    decreases |ss|
  {
    ss == [] ||
    (var s := ss[|ss| - 1];
     && (gap <= 1 || (0 <= anchor && CannotGrow(buf, s.offset, anchor)))
     && (gap <= 4 || (s.matchLength <= anchor && Unbeaten(buf, attempts, anchor - s.matchLength, anchor)))
     && WholeMatches(buf, attempts, anchor - s.matchLength - |s.literals|, ss[..|ss| - 1], |s.literals|))
  }

  /** More literals than any gap that makes a difference. */
  const MANY: nat := 5

  /** How many literals may follow the match `m`. */
  ghost function GapAfter(buf: seq<byte>, d: Diligence, m: Match): nat {
    if !Whole(buf, m) then 1 else if !Unbeaten(buf, d.attempts, m.start, m.End()) then 4 else MANY
  }

  /** If that is what the parser owes. */
  ghost predicate Lengths(buf: seq<byte>, d: Diligence, anchor: int, ss: seq<Sequence>, gap: int) {
    d.whole ==> WholeMatches(buf, d.attempts, anchor, ss, gap)
  }

  /** All runs of the block `b`, the last one except for its last `lag` bytes; in a block
      with such a rest the last match may be cut, too.  A source of 12 bytes or less is not
      searched. */
  ghost predicate Searched(buf: seq<byte>, d: Diligence, start: nat, consumed: nat, b: Block, lag: nat) {
    start + MFLIMIT < |buf| ==>
      var anchor := start + consumed - |b.last|;
      && QuietRuns(buf, d, start, anchor, b.sequences) && Quiet(buf, d, RunStart(d, start, anchor), start + consumed - lag)
      && Lengths(buf, d, anchor, b.sequences, if lag == 0 then |b.last| else 0)
  }

  /** Why a compressor may fail: a block that was searched for as owed does not fit.  If it
      gave up at its last match, the rest was not searched. */
  ghost predicate DoesNotFit(buf: seq<byte>, d: Diligence, start: nat, b: Block, room: nat) {
    || (TooBig(buf, start, b, room, true) && Searched(buf, d, start, |buf| - start, b, 0))
    || (TooBig(buf, start, b, room, false) && Searched(buf, d, start, |buf| - start, b, |b.last|))
  }

  lemma RunsGrow(buf: seq<byte>, d: Diligence, start: nat, anchor: nat, ss: seq<Sequence>, m: Match)
    requires QuietRuns(buf, d, start, anchor, ss) && anchor <= m.start <= |buf| && m.ref <= m.start
    requires Quiet(buf, d, RunStart(d, start, anchor), m.start - d.lag)
    requires Lengths(buf, d, anchor, ss, m.start - anchor)
    ensures QuietRuns(buf, d, start, m.End(), ss + [SequenceOf(buf, anchor, m)])
    ensures Lengths(buf, d, m.End(), ss + [SequenceOf(buf, anchor, m)], GapAfter(buf, d, m))
  {
    hide Quiet, CannotGrow, Unbeaten;
    assert (ss + [SequenceOf(buf, anchor, m)])[..|ss|] == ss;
  }

  lemma QuietWithin(buf: seq<byte>, d: Diligence, lo: int, hi: int, lo': int, hi': int)
    requires Quiet(buf, d, lo, hi) && lo <= lo' && hi' <= hi
    ensures Quiet(buf, d, lo', hi')
  {
  }

  lemma QuietGrows(buf: seq<byte>, d: Diligence, lo: int, p: nat)
    requires Quiet(buf, d, lo, p) && (Exhaustive(buf, p, d.attempts) ==> Matchless(buf, p, d.nearest))
    ensures Quiet(buf, d, lo, p + 1)
  {
    hide Exhaustive, Matchless;
  }

  lemma QuietToEnd(buf: seq<byte>, d: Diligence, lo: int, ip: nat)
    requires Quiet(buf, d, lo, ip) && ip + MFLIMIT > |buf|
    ensures Quiet(buf, d, lo, |buf|)
  {
    hide Exhaustive, Matchless;
  }

  lemma NoRunsYet(buf: seq<byte>, d: Diligence, start: nat)
    ensures QuietRuns(buf, d, start, start, []) && Lengths(buf, d, start, [], MANY)
  {
  }

  lemma SmallerGap(buf: seq<byte>, d: Diligence, anchor: int, ss: seq<Sequence>, gap: int, gap': int)
    requires Lengths(buf, d, anchor, ss, gap) && (gap' <= gap || MANY <= gap)
    ensures Lengths(buf, d, anchor, ss, gap')
  {
  }

  lemma NothingBetween(buf: seq<byte>, d: Diligence, lo: int, hi: int)
    requires hi <= lo
    ensures Quiet(buf, d, lo, hi)
  {
  }

  // ----- Emitting where the literals have been searched -----

  /** The match `m` does not fit, and the literals before it have been searched. */
  ghost predicate Stuck(buf: seq<byte>, d: Diligence, start: nat, op: nat, anchor: nat, m: Match, oend: int, ss: seq<Sequence>) {
    && anchor <= m.start && Usable(buf, m) && Overflows(op, m.start - anchor, m.len, oend)
    && QuietRuns(buf, d, start, anchor, ss) && Quiet(buf, d, RunStart(d, start, anchor), m.start - d.lag)
    && Lengths(buf, d, anchor, ss, m.start - anchor)
  }

  /** A match is emitted where the literals have been searched, or does not fit. */
  method EmitSearched(buf: seq<byte>, ghost start: nat, dst: array<byte>, op: nat, anchor: nat, m: Match, limit: Limit,
                      ghost d: Diligence, ghost ss: seq<Sequence>)
    returns (overflow: bool, op': nat, anchor': nat, ghost ss': seq<Sequence>)
    requires Output(buf, start, dst, op, anchor, limit, ss) && anchor <= m.start && Usable(buf, m)
    requires QuietRuns(buf, d, start, anchor, ss) && Quiet(buf, d, RunStart(d, start, anchor), m.start - d.lag)
    requires Lengths(buf, d, anchor, ss, m.start - anchor)
    modifies dst
    ensures Output(buf, start, dst, op', anchor', limit, ss')
    ensures overflow ==> limit != NotLimited && Stuck(buf, d, start, op', anchor', m, OutputEnd(dst, limit), ss')
    ensures !overflow ==>
      anchor' == m.End() && QuietRuns(buf, d, start, anchor', ss') && Lengths(buf, d, anchor', ss', GapAfter(buf, d, m))
  {
    hide IsMatch, Output, Quiet, QuietRuns, Overflows, Lengths, GapAfter;
    UsableRef(buf, m);
    RunsGrow(buf, d, start, anchor, ss, m);
    overflow, op', anchor', ss' := EmitMatch(buf, start, dst, op, anchor, m, limit, ss);
  }

  lemma NotGrown(buf: seq<byte>, d: Diligence, start: nat, op: nat, anchor: nat, m: Match, oend: int, ss: seq<Sequence>, out: seq<byte>, room: nat)
    returns (b: Block)
    requires Stuck(buf, d, start, op, anchor, m, oend, ss) && Emitted(buf, start, out, anchor, ss) && |out| == op && oend == room
    ensures DoesNotFit(buf, d, start, b, room)
  {
    hide IsMatch, Emitted, Quiet, QuietRuns, Overflows, TooBig, Lengths, GapAfter;
    OverflowsIsTooBig(op, m.start - anchor, m.len, oend);
    b := GivenUp(buf, start, out, anchor, ss, m, room);
    RunsGrow(buf, d, start, anchor, ss, m);
    assert b.sequences == ss + [SequenceOf(buf, anchor, m)];
    NothingBetween(buf, d, RunStart(d, start, m.End()), m.End());
    SmallerGap(buf, d, m.End(), b.sequences, GapAfter(buf, d, m), 0);
  }

  lemma AfterTail(buf: seq<byte>, d: Diligence, start: nat, op: nat, anchor: nat, m: Match, oend: int, ss: seq<Sequence>,
                  anchor': nat, ss': seq<Sequence>, room: nat, consumed: nat, b: Block)
    requires Stuck(buf, d, start, op, anchor, m, oend, ss) && m.ref <= m.start && m.End() <= |buf|
    requires Tail(buf, anchor, m, ss, anchor', ss', room)
    requires b.sequences == ss' && |b.last| <= room && anchor' + |b.last| == start + consumed
    ensures Searched(buf, d, start, consumed, b, d.lag + 10)
  {
    hide IsMatch, Quiet, QuietRuns, Overflows, Lengths, GapAfter;
    if ss' == ss {
      SmallerGap(buf, d, anchor, ss, m.start - anchor, 0);
      QuietWithin(buf, d, RunStart(d, start, anchor), m.start - d.lag, RunStart(d, start, anchor), start + consumed - d.lag - 10);
    } else {
      var len: nat :| MINMATCH <= len <= m.len && ss' == ss + [SequenceOf(buf, anchor, m.(len := len))] && anchor' == m.start + len;
      RunsGrow(buf, d, start, anchor, ss, m.(len := len));
      NothingBetween(buf, d, RunStart(d, start, anchor'), start + consumed - d.lag - 10);
      SmallerGap(buf, d, anchor', ss', GapAfter(buf, d, m.(len := len)), 0);
    }
  }

  /** The sections _dest_overflow and _last_literals of both parsers. */
  method FinishSearched(buf: seq<byte>, start: nat, dst: array<byte>, op: nat, anchor: nat, overflow: bool, pending: Match,
                        limit: Limit, ghost d: Diligence, ghost ss: seq<Sequence>)
    returns (result: nat, consumed: nat, ghost b: Block)
    requires Output(buf, start, dst, op, anchor, limit, ss)
    requires overflow ==> limit != NotLimited && Stuck(buf, d, start, op, anchor, pending, OutputEnd(dst, limit), ss)
    requires !overflow && start + MFLIMIT < |buf| ==>
      && QuietRuns(buf, d, start, anchor, ss) && Quiet(buf, d, RunStart(d, start, anchor), |buf|)
      && Lengths(buf, d, anchor, ss, MANY)
    modifies dst
    ensures result == 0 ==> limit == LimitedOutput && DoesNotFit(buf, d, start, b, dst.Length)
    ensures 0 < result ==> result <= dst.Length && IsBlockOf(buf, start, consumed, dst[..result], b)
    ensures 0 < result && limit != FillOutput ==> consumed == |buf| - start
    ensures 0 < result && limit == FillOutput ==> consumed == |buf| - start || dst.Length <= result + 1
    ensures 0 < result ==> Searched(buf, d, start, consumed, b, if limit == FillOutput then d.lag + 10 else 0)
  {
    hide IsMatch, Emitted, IsBlockOf, Quiet, QuietRuns, Lengths, TooBig, Tail, LastThatFits, Overflows, CompressBound, CanEnd;
    if overflow && limit == LimitedOutput {
      b := NotGrown(buf, d, start, op, anchor, pending, OutputEnd(dst, limit), ss, dst[..op], dst.Length);
      return 0, 0, b;
    }
    var op', anchor' := op, anchor;
    ghost var ss' := ss;
    if overflow {
      UsableRef(buf, pending);
      op', anchor', ss' := FillTail(buf, start, dst, op, anchor, pending, ss);
    }
    result, consumed, b := FinishBlock(buf, start, dst, op', anchor', limit, ss');
    if overflow {
      AfterTail(buf, d, start, op, anchor, pending, OutputEnd(dst, limit), ss, anchor', ss', LastThatFits(dst.Length - op'), consumed, b);
    } else if 0 < result && start + MFLIMIT < |buf| {
      QuietWithin(buf, d, RunStart(d, start, anchor), |buf|, RunStart(d, start, anchor),
                  start + consumed - if limit == FillOutput then d.lag + 10 else 0);
      SmallerGap(buf, d, anchor, ss, MANY, if limit == FillOutput then 0 else |b.last|);
    } else if start + MFLIMIT < |buf| {
      SmallerGap(buf, d, anchor, ss, MANY, |b.last|);
    }
  }

  // ----- What it means -----

  /** A match that an exhaustive search can find is not lost: the block has a match. */
  lemma MatchIsUsed(buf: seq<byte>, d: Diligence, start: nat, consumed: nat, b: Block, lag: nat, p: nat)
    requires Searched(buf, d, start, consumed, b, lag) && |b.last| <= consumed && start + MFLIMIT < |buf|
    requires start <= p && p + lag < start + consumed && p + MFLIMIT <= |buf|
    requires Exhaustive(buf, p, d.attempts) && !Matchless(buf, p, d.nearest)
    ensures b.sequences != []
  {
    hide Exhaustive, Matchless;
  }

  /** The naive scan finds a match exactly where there is one. */
  lemma ScanFindsMatch(buf: seq<byte>, p: nat)
    requires p + MFLIMIT <= |buf|
    ensures Matchless(buf, p, 1) <==> NaiveSearch(buf, p, WindowStart(p), |buf| - LASTLITERALS, MINMATCH - 1).0 < MINMATCH
  {
    hide SameWord, NaiveSearch, CommonLength;
    var limit := |buf| - LASTLITERALS;
    var (l, q) := NaiveSearch(buf, p, WindowStart(p), limit, MINMATCH - 1);
    NaiveSearchIsLongest(buf, p, WindowStart(p), limit, MINMATCH - 1);
    if MINMATCH <= l {
      SameWordIsMatch(buf, p, q, limit);
    } else {
      forall r: nat | WindowStart(p) <= r < p ensures !SameWord(buf, r, p) {
        SameWordIsMatch(buf, p, r, limit);
      }
    }
  }
}
