/** The optimal parser of the HC compressor (LZ4HC_compress_optimal).

    For each stretch of source the parser fills `opt`: entry `p` tells how the
    cheapest known parse reaches position `p`, by one literal or by a match that ends
    there.  The chosen path is then reversed in place and replayed forwards.  Prices
    only steer the choice; whatever they are, the replay tiles the stretch.
 */
module OptimalParser {
  import opened BlockFormat
  import opened SourceParse
  import opened MatchCount
  import opened Emitter
  import opened BlockWriter
  import opened HashChain
  import opened SearchedRuns

  const LZ4_OPT_NUM: nat := 4096
  const TRAILING_LITERALS: nat := 3

  datatype Optimal = Optimal(price: int, off: nat, mlen: nat, litlen: nat)

  function LiteralsPrice(litlen: nat): nat {
    litlen + if litlen >= RUN_MASK then 1 + (litlen - RUN_MASK) / 255 else 0
  }

  function SequencePrice(litlen: nat, mlen: nat): nat {
    1 + 2 + LiteralsPrice(litlen)
    + if mlen >= ML_MASK + MINMATCH then 1 + (mlen - (ML_MASK + MINMATCH)) / 255 else 0
  }

  // ----- The table -----

  /** A step of `mlen` from position `p` of the stretch at `ip`: a literal or a match. */
  predicate StepOk(buf: seq<byte>, ip: nat, p: nat, off: nat, mlen: nat) {
    mlen == 1 || (1 <= off <= ip + p && Usable(buf, Match(ip + p, ip + p - off, mlen)))
  }

  /** Entry `p` of the table: position 0 is reached by a literal of length one, which
      no position can hold; any other by a step from within the stretch. */
  predicate EntryOk(buf: seq<byte>, ip: nat, p: nat, e: Optimal) {
    if p == 0 then e.mlen == 1 else 1 <= e.mlen <= p && StepOk(buf, ip, p - e.mlen, e.off, e.mlen)
  }

  ghost predicate Filled(buf: seq<byte>, ip: nat, es: seq<Optimal>, upTo: nat) {
    upTo < |es| && forall p :: 0 <= p <= upTo ==> EntryOk(buf, ip, p, es[p])
  }

  /** Following the entries from `p` leads to `end` in literals and usable matches,
      the last of which starts at `cur`. */
  ghost predicate Tiled(buf: seq<byte>, ip: nat, es: seq<Optimal>, p: nat, cur: nat, end: nat)
    decreases end - p
  {
    p == end ||
    (&& p <= cur < end && p < |es| && 1 <= es[p].mlen && StepOk(buf, ip, p, es[p].off, es[p].mlen)
     && p + es[p].mlen <= end
     && Tiled(buf, ip, es, p + es[p].mlen, cur, end))
  }

  /** Only the entries from `p` on matter. */
  lemma {:induction false} TiledFrame(buf: seq<byte>, ip: nat, es: seq<Optimal>, fs: seq<Optimal>, p: nat, cur: nat, end: nat)
    requires Tiled(buf, ip, es, p, cur, end) && |es| == |fs|
    requires forall q :: p <= q < |es| ==> es[q] == fs[q]
    ensures Tiled(buf, ip, fs, p, cur, end)
    decreases end - p
  {
    if p != end {
      TiledFrame(buf, ip, es, fs, p + es[p].mlen, cur, end);
    }
  }

  /** From `p` on, the path comes to a match. */
  ghost predicate HasMatch(es: seq<Optimal>, p: nat, end: nat)
    decreases end - p
  {
    p < end && p < |es| && (es[p].mlen != 1 || HasMatch(es, p + 1, end))
  }

  lemma {:induction false} HasMatchFrame(es: seq<Optimal>, fs: seq<Optimal>, p: nat, end: nat)
    requires HasMatch(es, p, end) && |es| == |fs|
    requires forall q :: p <= q < |es| ==> es[q] == fs[q]
    ensures HasMatch(fs, p, end)
    decreases end - p
  {
    if es[p].mlen == 1 {
      HasMatchFrame(es, fs, p + 1, end);
    }
  }

  /** The first three positions stay literals, and the fourth the end of a match, which is
      cheaper than four literals: no path is without a match. */
  predicate Opened(es: seq<Optimal>, llen: nat) {
    && MINMATCH < |es| && es[MINMATCH].mlen == MINMATCH && es[MINMATCH].price == SequencePrice(llen, MINMATCH)
    && forall p :: 1 <= p < MINMATCH ==> es[p].mlen == 1 && es[p].litlen == llen + p && es[p].price == LiteralsPrice(llen + p)
  }

  // ----- The search -----

  /** The search of the first match of a stretch; inside the stretch it may be skipped. */
  function OptimalDiligence(nbSearches: int, favorDecSpeed: bool): Diligence {
    Diligence(nbSearches, Nearest(favorDecSpeed), LZ4_OPT_NUM, LZ4_OPT_NUM, false)
  }

  /** LZ4HC_FindLongerMatch: a match longer than `minLen`, or length 0. */
  method FindLongerMatch(ctx: HcContext, ip: nat, minLen: nat, nbSearches: int, favorDecSpeed: bool) returns (len: nat, off: nat)
    requires ctx.Valid() && ctx.nextToUpdate - ctx.dictLimit <= ip
    requires ip + MFLIMIT <= |ctx.buf| && 1 <= minLen && ip + minLen < |ctx.buf|
    modifies ctx`nextToUpdate, ctx.hashTable, ctx.chainTable
    ensures ctx.Valid() && ctx.nextToUpdate == ip + ctx.dictLimit
    ensures len != 0 ==> MINMATCH <= len && StepOk(ctx.buf, ip, 0, off, len)
    ensures len == 0 && minLen == MINMATCH - 1 && Exhaustive(ctx.buf, ip, nbSearches) ==> Matchless(ctx.buf, ip, Nearest(favorDecSpeed))
  {
    hide Exhaustive, Matchless, CannotGrow;
    var ml, ref, start := ctx.InsertAndGetWiderMatch(ip, ip, |ctx.buf| - LASTLITERALS, minLen, nbSearches, true, true, favorDecSpeed);
    if ml <= minLen { return 0, 0; }
    len := ml;
    if favorDecSpeed && 18 < ml <= 36 {
      len := 18;
      Shortened(ctx.buf, Match(ip, ref, ml), 18);
    }
    off := ip - ref;
  }

  // ----- Filling the table -----

  /** Entries for three literals after the last match position. */
  method AddTrailing(opt: array<Optimal>, ghost buf: seq<byte>, ghost ip: nat, last: nat)
    requires last + TRAILING_LITERALS < opt.Length && Filled(buf, ip, opt[..], last)
    modifies opt
    ensures Filled(buf, ip, opt[..], last + TRAILING_LITERALS)
    ensures forall p :: 0 <= p <= last ==> opt[p] == old(opt[p])
  {
    hide Usable;
    var price := opt[last].price;
    for addLit := 1 to TRAILING_LITERALS + 1
      invariant Filled(buf, ip, opt[..], last + addLit - 1)
      invariant forall p :: 0 <= p <= last ==> opt[p] == old(opt[p])
    {
      opt[last + addLit] := Optimal(price + LiteralsPrice(addLit), 0, 1, addLit);
    }
  }

  /** The first entries: literals up to MINMATCH, then the first match. */
  method Initialise(opt: array<Optimal>, ghost buf: seq<byte>, ghost ip: nat, llen: nat, matchML: nat, off: nat)
    requires MINMATCH <= matchML && matchML + TRAILING_LITERALS < opt.Length
    requires StepOk(buf, ip, 0, off, matchML)
    modifies opt
    ensures Filled(buf, ip, opt[..], matchML + TRAILING_LITERALS) && Opened(opt[..], llen)
  {
    hide Usable;
    for rPos := 0 to MINMATCH
      invariant forall p :: 0 <= p < rPos ==> EntryOk(buf, ip, p, opt[p]) && opt[p] == Optimal(LiteralsPrice(llen + p), 0, 1, llen + p)
    {
      opt[rPos] := Optimal(LiteralsPrice(llen + rPos), 0, 1, llen + rPos);
    }
    for mlen := MINMATCH to matchML + 1
      invariant forall p :: 0 <= p < mlen ==> EntryOk(buf, ip, p, opt[p])
      invariant forall p :: 0 <= p < MINMATCH ==> opt[p] == Optimal(LiteralsPrice(llen + p), 0, 1, llen + p)
      invariant MINMATCH < mlen ==> opt[MINMATCH] == Optimal(SequencePrice(llen, MINMATCH), off, MINMATCH, llen)
    {
      ShorterStep(buf, ip, 0, off, matchML, mlen);
      opt[mlen] := Optimal(SequencePrice(llen, mlen), off, mlen, llen);
    }
    AddTrailing(opt, buf, ip, matchML);
  }

  lemma ShorterStep(buf: seq<byte>, ip: nat, p: nat, off: nat, matchML: nat, mlen: nat)
    requires StepOk(buf, ip, p, off, matchML) && MINMATCH <= mlen <= matchML
    ensures StepOk(buf, ip, p, off, mlen)
  {
    Shortened(buf, Match(ip + p, ip + p - off, matchML), mlen);
  }

  /** Up to three literals after a position: no cheaper way to the first four. */
  method UpdateLiterals(opt: array<Optimal>, ghost buf: seq<byte>, ghost ip: nat, cur: nat, ghost last: nat, ghost llen: nat)
    requires opt.Length == LZ4_OPT_NUM + TRAILING_LITERALS && 1 <= cur < last < LZ4_OPT_NUM && MINMATCH <= last
    requires Filled(buf, ip, opt[..], last + TRAILING_LITERALS) && Opened(opt[..], llen)
    modifies opt
    ensures Filled(buf, ip, opt[..], last + TRAILING_LITERALS) && Opened(opt[..], llen)
  {
    hide Usable;
    var baseLitlen := opt[cur].litlen;
    for litlen := 1 to MINMATCH
      invariant Filled(buf, ip, opt[..], last + TRAILING_LITERALS) && Opened(opt[..], llen)
      invariant opt[cur].litlen == baseLitlen
    {
      var price := opt[cur].price - LiteralsPrice(baseLitlen) + LiteralsPrice(baseLitlen + litlen);
      if price < opt[cur + litlen].price {
        opt[cur + litlen] := Optimal(price, 0, 1, baseLitlen + litlen);
      }
    }
  }

  lemma MatchAtFour(es: seq<Optimal>, llen: nat)
    requires Opened(es, llen)
    ensures MINMATCH < |es| && es[MINMATCH].mlen == MINMATCH
  {
  }

  lemma StillOpened(es: seq<Optimal>, fs: seq<Optimal>, llen: nat)
    requires Opened(es, llen) && |fs| == |es| && forall p :: 0 <= p <= MINMATCH ==> fs[p] == es[p]
    ensures Opened(fs, llen)
  {
  }

  /** A match found at `cur`: cheaper ways to reach later positions. */
  method UpdatePrices(opt: array<Optimal>, ghost buf: seq<byte>, ghost ip: nat, cur: nat, last: nat,
                      matchML: nat, off: nat, favorDecSpeed: bool, ghost llen: nat)
    returns (last': nat)
    requires opt.Length == LZ4_OPT_NUM + TRAILING_LITERALS && 1 <= cur < last < LZ4_OPT_NUM
    requires Filled(buf, ip, opt[..], last + TRAILING_LITERALS)
    requires MINMATCH <= matchML && cur + matchML < LZ4_OPT_NUM && StepOk(buf, ip, cur, off, matchML)
    requires Opened(opt[..], llen) && MINMATCH <= last
    modifies opt
    ensures last' == last || (last < last' == cur + matchML)
    ensures Filled(buf, ip, opt[..], last' + TRAILING_LITERALS) && Opened(opt[..], llen)
  {
    hide Usable, Opened;
    UpdateLiterals(opt, buf, ip, cur, last, llen);
    ghost var before := opt[..];
    last' := last;
    for ml := MINMATCH to matchML + 1
      invariant ml <= matchML ==> last' == last
      invariant last' == last || (last < last' == cur + matchML)
      invariant forall p :: 0 <= p <= MINMATCH ==> opt[p] == before[p]
      invariant Filled(buf, ip, opt[..], if last + TRAILING_LITERALS < cur + ml - 1 then cur + ml - 1 else last + TRAILING_LITERALS)
    {
      ShorterStep(buf, ip, cur, off, matchML, ml);
      var pos := cur + ml;
      var ll, price;
      if opt[cur].mlen == 1 {
        ll := opt[cur].litlen;
        price := (if cur > ll then opt[cur - ll].price else 0) + SequencePrice(ll, ml);
      } else {
        ll, price := 0, opt[cur].price + SequencePrice(0, ml);
      }
      if pos > last' + TRAILING_LITERALS || price <= opt[pos].price - (if favorDecSpeed then 1 else 0) {
        if ml == matchML && last' < pos { last' := pos; }
        opt[pos] := Optimal(price, off, ml, ll);
      }
    }
    AddTrailing(opt, buf, ip, last');
    StillOpened(before, opt[..], llen);
  }

  // ----- Choosing and replaying the path -----

  lemma PathEnds(buf: seq<byte>, ip: nat, es: seq<Optimal>, cur: nat, end: nat)
    ensures Tiled(buf, ip, es, end, cur, end)
  {
  }

  /** The step from `p` is recorded in front of the path. */
  lemma LinkBack(buf: seq<byte>, ip: nat, es: seq<Optimal>, fs: seq<Optimal>, p: nat, mlen: nat, off: nat, cur: nat, end: nat)
    requires p < |es| && fs == es[p := es[p].(mlen := mlen, off := off)] && p <= cur < end
    requires 1 <= mlen && StepOk(buf, ip, p, off, mlen) && p + mlen <= end && Tiled(buf, ip, es, p + mlen, cur, end)
    ensures Tiled(buf, ip, fs, p, cur, end)
    ensures mlen != 1 || HasMatch(es, p + 1, end) ==> HasMatch(fs, p, end)
  {
    hide StepOk;
    TiledFrame(buf, ip, es, fs, p + mlen, cur, end);
    if HasMatch(es, p + 1, end) { HasMatchFrame(es, fs, p + 1, end); }
  }

  /** Reverses the path that ends with a step of `bestMl` from `cur`: the traversal
      stops at position 0, and the entries then lead from 0 to `cur + bestMl`. */
  method ReverseTraversal(opt: array<Optimal>, ghost buf: seq<byte>, ghost ip: nat, cur: nat, bestMl: nat, bestOff: nat)
    requires Filled(buf, ip, opt[..], cur) && cur < opt.Length && 1 <= bestMl && StepOk(buf, ip, cur, bestOff, bestMl)
    requires bestMl == 1 ==> MINMATCH <= cur && opt[MINMATCH].mlen == MINMATCH
    modifies opt
    ensures Tiled(buf, ip, opt[..], 0, cur, cur + bestMl) && HasMatch(opt[..], 0, cur + bestMl)
  {
    hide StepOk, Tiled, HasMatch;
    PathEnds(buf, ip, opt[..], cur, cur + bestMl);
    var candidate: nat, selectedMl: nat, selectedOff: nat := cur, bestMl, bestOff;
    ghost var end := cur + bestMl;
    while true
      invariant candidate <= cur && Filled(buf, ip, opt[..], candidate)
      invariant 1 <= selectedMl && StepOk(buf, ip, candidate, selectedOff, selectedMl)
      invariant Tiled(buf, ip, opt[..], candidate + selectedMl, cur, end) && candidate + selectedMl <= end
      invariant selectedMl != 1 || HasMatch(opt[..], candidate + 1, end) || (MINMATCH <= candidate && opt[MINMATCH].mlen == MINMATCH)
      decreases candidate
    {
      var nextMl, nextOff := opt[candidate].mlen, opt[candidate].off;
      ghost var before := opt[..];
      opt[candidate] := opt[candidate].(mlen := selectedMl, off := selectedOff);
      LinkBack(buf, ip, before, opt[..], candidate, selectedMl, selectedOff, cur, end);
      selectedMl, selectedOff := nextMl, nextOff;
      if nextMl > candidate { break; }
      candidate := candidate - nextMl;
    }
  }

  /** Emits the recorded path: every match in order, the literals in between with
      the match that follows them.  On overflow, `pending` is the match that did not
      fit. */
  method Replay(opt: array<Optimal>, buf: seq<byte>, ghost start: nat, dst: array<byte>, op: nat, anchor: nat, ip: nat,
                ghost cur: nat, last: nat, ghost end: nat, limit: Limit, ghost d: Diligence, ghost ss: seq<Sequence>)
    returns (overflow: bool, op': nat, anchor': nat, ip': nat, pending: Match, ghost ss': seq<Sequence>)
    requires Output(buf, start, dst, op, anchor, limit, ss) && anchor <= ip
    requires opt as object != dst as object
    requires Tiled(buf, ip, opt[..], 0, cur, end) && cur < last <= end && ip + end <= |buf|
    requires HasMatch(opt[..], 0, end) && last <= LZ4_OPT_NUM && d.lead == d.lag == LZ4_OPT_NUM && !d.whole
    requires start <= anchor && QuietRuns(buf, d, start, anchor, ss) && Quiet(buf, d, RunStart(d, start, anchor), ip)
    modifies dst
    ensures Output(buf, start, dst, op', anchor', limit, ss')
    ensures overflow ==> limit != NotLimited && Stuck(buf, d, start, op', anchor', pending, OutputEnd(dst, limit), ss')
    ensures !overflow ==> ip < anchor' <= ip' == ip + end
    ensures !overflow ==> QuietRuns(buf, d, start, anchor', ss') && Quiet(buf, d, RunStart(d, start, anchor'), ip')
  {
    hide Usable, Output, Emitted, Quiet, QuietRuns, Stuck;
    op', anchor', ip', ss' := op, anchor, ip, ss;
    pending, overflow := Match(0, 0, 0), false;
    var rPos := 0;
    while rPos < last
      invariant rPos <= end && ip' == ip + rPos && anchor' <= ip'
      invariant Tiled(buf, ip, opt[..], rPos, cur, end)
      invariant Output(buf, start, dst, op', anchor', limit, ss')
      invariant start <= anchor' && QuietRuns(buf, d, start, anchor', ss') && Quiet(buf, d, RunStart(d, start, anchor'), ip)
      invariant HasMatch(opt[..], rPos, end) || ip < anchor'
      invariant ip < anchor' ==> ip' <= anchor' + LZ4_OPT_NUM
    {
      var ml, offset := opt[rPos].mlen, opt[rPos].off;
      if ml == 1 {
        ip', rPos := ip' + 1, rPos + 1;
        continue;
      }
      rPos := rPos + ml;
      pending := Match(ip', ip' - offset, ml);
      QuietWithin(buf, d, RunStart(d, start, anchor'), ip, RunStart(d, start, anchor'), ip' - d.lag);
      overflow, op', anchor', ss' := EmitSearched(buf, start, dst, op', anchor', pending, limit, d, ss');
      if overflow { return; }
      ip' := anchor';
      NothingBetween(buf, d, RunStart(d, start, anchor'), ip);
    }
    NothingBetween(buf, d, RunStart(d, start, anchor'), ip');
  }

  // ----- The parser -----

  /** Looks for a match at `cur` unless the prices make it useless.  A very long one
      ends the stretch at once. */
  method TryPosition(ctx: HcContext, opt: array<Optimal>, ip: nat, cur: nat, last: nat,
                     nbSearches: int, sufficientLen: nat, fullUpdate: bool, favorDecSpeed: bool, ghost llen: nat)
    returns (last': nat, len: nat, off: nat, immediate: bool)
    requires ctx.Valid() && ctx.nextToUpdate - ctx.dictLimit < ip + cur && ip + cur + MFLIMIT <= |ctx.buf|
    requires opt.Length == LZ4_OPT_NUM + TRAILING_LITERALS
    requires opt as object != ctx.hashTable && opt as object != ctx.chainTable
    requires 1 <= cur < last < LZ4_OPT_NUM && ip + last + LASTLITERALS <= |ctx.buf|
    requires Filled(ctx.buf, ip, opt[..], last + TRAILING_LITERALS) && Opened(opt[..], llen) && MINMATCH <= last
    modifies ctx`nextToUpdate, ctx.hashTable, ctx.chainTable, opt
    ensures ctx.Valid() && ctx.nextToUpdate - ctx.dictLimit <= ip + cur
    ensures last <= last' < LZ4_OPT_NUM && ip + last' + LASTLITERALS <= |ctx.buf|
    ensures Filled(ctx.buf, ip, opt[..], last' + TRAILING_LITERALS) && Opened(opt[..], llen)
    ensures immediate ==> MINMATCH <= len && StepOk(ctx.buf, ip, cur, off, len)
  {
    hide IsMatch, Filled, Opened;
    last', len, off, immediate := last, 0, 0, false;
    var noGain := opt[cur + 1].price <= opt[cur].price
      && (!fullUpdate || opt[cur + MINMATCH].price < opt[cur].price + 3);
    if noGain { return; }
    len, off := FindLongerMatch(ctx, ip + cur, if fullUpdate then MINMATCH - 1 else last - cur, nbSearches, favorDecSpeed);
    if len == 0 { return; }
    if len > sufficientLen || len + cur >= LZ4_OPT_NUM {
      immediate := true;
    } else {
      last' := UpdatePrices(opt, ctx.buf, ip, cur, last, len, off, favorDecSpeed, llen);
    }
  }

  /** Fills the table for the stretch that starts with a first match at `ip`, and
      leaves in it a path from 0 to `end`. */
  method ChoosePath(ctx: HcContext, opt: array<Optimal>, ip: nat, llen: nat, firstLen: nat, firstOff: nat,
                    nbSearches: int, sufficientLen: nat, fullUpdate: bool, favorDecSpeed: bool)
    returns (cur: nat, last: nat, ghost end: nat)
    requires ctx.Valid() && ctx.nextToUpdate - ctx.dictLimit <= ip && ip + MFLIMIT <= |ctx.buf|
    requires opt.Length == LZ4_OPT_NUM + TRAILING_LITERALS
    requires opt as object != ctx.hashTable && opt as object != ctx.chainTable
    requires MINMATCH <= firstLen <= sufficientLen < LZ4_OPT_NUM && StepOk(ctx.buf, ip, 0, firstOff, firstLen)
    modifies ctx`nextToUpdate, ctx.hashTable, ctx.chainTable, opt
    ensures ctx.Valid() && ctx.nextToUpdate - ctx.dictLimit <= ip + end
    ensures ip + end <= |ctx.buf| && cur < last <= end && last <= LZ4_OPT_NUM
    ensures Tiled(ctx.buf, ip, opt[..], 0, cur, end) && HasMatch(opt[..], 0, end)
  {
    hide IsMatch, Tiled, HasMatch, Opened;
    var buf := ctx.buf;
    Initialise(opt, buf, ip, llen, firstLen, firstOff);
    last, cur := firstLen, 1;
    var bestMl: nat, bestOff: nat, immediate := 0, 0, false;
    while cur < last && ip + cur + MFLIMIT <= |buf|
      invariant ctx.Valid() && ctx.buf == buf && ctx.nextToUpdate - ctx.dictLimit < ip + cur
      invariant 1 <= cur <= last < LZ4_OPT_NUM && ip + last + LASTLITERALS <= |buf|
      invariant Filled(buf, ip, opt[..], last + TRAILING_LITERALS) && Opened(opt[..], llen) && MINMATCH <= last
      decreases LZ4_OPT_NUM - cur
    {
      last, bestMl, bestOff, immediate := TryPosition(ctx, opt, ip, cur, last, nbSearches, sufficientLen, fullUpdate, favorDecSpeed, llen);
      if immediate { break; }
      cur := cur + 1;
    }
    if immediate {
      last := cur + 1;
    } else {
      bestMl, bestOff := opt[last].mlen, opt[last].off;
      cur := last - bestMl;
      MatchAtFour(opt[..], llen);
    }
    end := cur + bestMl;
    ReverseTraversal(opt, buf, ip, cur, bestMl, bestOff);
  }

  /** The position of the main loop: where the literals before `ip` have been searched. */
  ghost predicate AtStretch(buf: seq<byte>, d: Diligence, start: nat, anchor: nat, ip: nat, ss: seq<Sequence>) {
    && start <= anchor <= ip <= |buf|
    && QuietRuns(buf, d, start, anchor, ss) && Quiet(buf, d, RunStart(d, start, anchor), ip)
  }

  /** One turn of the main loop: a literal, a very long match, or a stretch. */
  method NextStretch(ctx: HcContext, opt: array<Optimal>, ghost start: nat, dst: array<byte>, op: nat, anchor: nat, ip: nat,
                     nbSearches: int, sufficientLen: nat, limit: Limit, fullUpdate: bool, favorDecSpeed: bool, ghost ss: seq<Sequence>)
    returns (overflow: bool, op': nat, anchor': nat, ip': nat, pending: Match, ghost ss': seq<Sequence>)
    requires ctx.Valid() && Output(ctx.buf, start, dst, op, anchor, limit, ss)
    requires AtStretch(ctx.buf, OptimalDiligence(nbSearches, favorDecSpeed), start, anchor, ip, ss)
    requires ctx.nextToUpdate - ctx.dictLimit <= ip && ip + MFLIMIT <= |ctx.buf|
    requires opt.Length == LZ4_OPT_NUM + TRAILING_LITERALS && sufficientLen < LZ4_OPT_NUM
    requires dst as object != ctx.hashTable && dst as object != ctx.chainTable
    requires opt as object != ctx.hashTable && opt as object != ctx.chainTable && opt as object != dst as object
    modifies ctx`nextToUpdate, ctx.hashTable, ctx.chainTable, opt, dst
    ensures ctx.Valid() && Output(ctx.buf, start, dst, op', anchor', limit, ss')
    ensures overflow ==>
      limit != NotLimited && Stuck(ctx.buf, OptimalDiligence(nbSearches, favorDecSpeed), start, op', anchor', pending, OutputEnd(dst, limit), ss')
    ensures !overflow ==>
      && ip < ip' && ctx.nextToUpdate - ctx.dictLimit <= ip'
      && AtStretch(ctx.buf, OptimalDiligence(nbSearches, favorDecSpeed), start, anchor', ip', ss')
  {
    hide IsMatch, Emitted, Output, Tiled, HasMatch, Exhaustive, Matchless, Quiet, QuietRuns, Stuck;
    ghost var buf, d := ctx.buf, OptimalDiligence(nbSearches, favorDecSpeed);
    overflow, op', anchor', ip', pending, ss' := false, op, anchor, ip, Match(0, 0, 0), ss;
    var len, off := FindLongerMatch(ctx, ip, MINMATCH - 1, nbSearches, favorDecSpeed);
    if len == 0 {
      QuietGrows(buf, d, RunStart(d, start, anchor), ip);
      ip' := ip + 1;
    } else if len > sufficientLen {
      pending := Match(ip, ip - off, len);
      UsableRef(buf, pending);
      QuietWithin(buf, d, RunStart(d, start, anchor), ip, RunStart(d, start, anchor), ip - d.lag);
      overflow, op', anchor', ss' := EmitSearched(ctx.buf, start, dst, op, anchor, pending, limit, d, ss);
      if !overflow {
        ip' := anchor';
        NothingBetween(buf, d, RunStart(d, start, anchor'), ip');
      }
    } else {
      var cur, last, end := ChoosePath(ctx, opt, ip, ip - anchor, len, off, nbSearches, sufficientLen, fullUpdate, favorDecSpeed);
      overflow, op', anchor', ip', pending, ss' := Replay(opt, ctx.buf, start, dst, op, anchor, ip, cur, last, end, limit, d, ss);
    }
  }

  /** LZ4HC_compress_optimal in its three output modes: what it writes is a block that
      every decoder accepts and that stands for the consumed source. */
  method CompressOptimal(ctx: HcContext, start: nat, dst: array<byte>, nbSearches: int, sufficientLen0: nat,
                         limit: Limit, fullUpdate: bool, favorDecSpeed: bool)
    returns (result: nat, consumed: nat, ghost b: Block)
    requires ctx.Valid() && ctx.nextToUpdate - ctx.dictLimit <= start <= |ctx.buf|
    requires dst as object != ctx.hashTable && dst as object != ctx.chainTable
    requires limit == NotLimited ==> CompressBound(|ctx.buf| - start) <= dst.Length
    requires limit == FillOutput ==> 1 <= dst.Length
    modifies ctx`nextToUpdate, ctx.hashTable, ctx.chainTable, dst
    ensures ctx.Valid()
    ensures result == 0 ==>
      limit == LimitedOutput && DoesNotFit(ctx.buf, OptimalDiligence(nbSearches, favorDecSpeed), start, b, dst.Length)
    ensures 0 < result ==> result <= dst.Length && IsBlockOf(ctx.buf, start, consumed, dst[..result], b)
    ensures 0 < result && limit != FillOutput ==> consumed == |ctx.buf| - start
    ensures 0 < result && limit == FillOutput ==> consumed == |ctx.buf| - start || dst.Length <= result + 1
    ensures 0 < result ==>
      Searched(ctx.buf, OptimalDiligence(nbSearches, favorDecSpeed), start, consumed, b, if limit == FillOutput then LZ4_OPT_NUM + 10 else 0)
  {
    hide IsMatch, Emitted, IsBlockOf, Quiet, QuietRuns, Stuck, Searched, DoesNotFit;
    var buf := ctx.buf;
    ghost var d := OptimalDiligence(nbSearches, favorDecSpeed);
    var opt := new Optimal[LZ4_OPT_NUM + TRAILING_LITERALS](_ => Optimal(0, 0, 0, 0));
    var sufficientLen := if sufficientLen0 >= LZ4_OPT_NUM then LZ4_OPT_NUM - 1 else sufficientLen0;
    var op: nat, anchor: nat, ip: nat := 0, start, start;
    ghost var ss: seq<Sequence> := [];
    assert dst[..0] == [];
    NothingEmitted(buf, start);
    NoRunsYet(buf, d, start);
    NothingBetween(buf, d, start, start);
    var overflow, pending := false, Match(0, 0, 0);
    while !overflow && ip + MFLIMIT <= |buf|
      invariant ctx.Valid() && ctx.buf == buf && Output(buf, start, dst, op, anchor, limit, ss)
      invariant overflow ==> limit != NotLimited && Stuck(buf, d, start, op, anchor, pending, OutputEnd(dst, limit), ss)
      invariant !overflow ==> AtStretch(buf, d, start, anchor, ip, ss) && ctx.nextToUpdate - ctx.dictLimit <= ip
      decreases !overflow, |buf| - ip
    {
      overflow, op, anchor, ip, pending, ss :=
        NextStretch(ctx, opt, start, dst, op, anchor, ip, nbSearches, sufficientLen, limit, fullUpdate, favorDecSpeed, ss);
    }
    if !overflow { QuietToEnd(buf, d, RunStart(d, start, anchor), ip); }
    result, consumed, b := FinishSearched(buf, start, dst, op, anchor, overflow, pending, limit, d, ss);
  }
}
