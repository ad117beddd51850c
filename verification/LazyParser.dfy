/** The lazy parser of the HC compressor (LZ4HC_compress_hashChain).

    The parser holds up to three overlapping matches, ML1 at the current position,
    ML2 and ML3 after it, plus ML0, the match ML1 has replaced.  Its gotos become the
    labels of a state machine; `AtSearch2` and `AtSearch3` say what holds at each.
 */
module LazyParser {
  import opened BlockFormat
  import opened SourceParse
  import opened MatchCount
  import opened Emitter
  import opened BlockWriter
  import opened HashChain
  import opened SearchedRuns

  const OPTIMAL_ML: nat := (ML_MASK - 1) + MINMATCH

  datatype Label = MainLoop | Search2 | Search3

  /** ML1 cut to the length that leaves ML2 at least four bytes, or, seen from ML2,
      how far from ML1's start ML2 may begin. */
  function NewLength(m1: Match, m2: Match): int {
    var ml := if m1.len > OPTIMAL_ML then OPTIMAL_ML else m1.len;
    if m1.start + ml > m2.End() - MINMATCH then m2.start - m1.start + m2.len - MINMATCH else ml
  }

  /** Moves the start of ML2 forward, to the end of a shortened ML1. */
  function Squeeze(m1: Match, m2: Match): Match
    requires m1.start <= m2.start && MINMATCH <= m2.len
  {
    var correction := NewLength(m1, m2) - (m2.start - m1.start);
    if m2.start - m1.start < OPTIMAL_ML && correction > 0
    then Match(m2.start + correction, m2.ref + correction, m2.len - correction)
    else m2
  }

  /** At _Search2, ML1 is at most two bytes after ML0. */
  ghost predicate AtSearch2(buf: seq<byte>, anchor: nat, m0: Match, m1: Match) {
    && Usable(buf, m0) && Usable(buf, m1) && Whole(buf, m0) && Whole(buf, m1)
    && anchor <= m0.start <= m1.start <= m0.start + 2
    && (m0 == m1 || m0.End() + MFLIMIT <= |buf|)
  }

  /** At _Search3, squeezing leaves both ML1 and ML2 at least four bytes. */
  ghost predicate AtSearch3(buf: seq<byte>, anchor: nat, m1: Match, m2: Match) {
    && Usable(buf, m1) && Usable(buf, m2) && Whole(buf, m1) && Whole(buf, m2)
    && anchor <= m1.start && m1.start + 2 <= m2.start <= m1.End() + 1
    && 5 <= m2.len && 8 <= m2.start - m1.start + m2.len
    && m1.End() + MFLIMIT <= |buf|
  }

  /** After the squeeze: ML1, cut where ML2 begins, and ML2 are both matches. */
  ghost predicate Squeezed(buf: seq<byte>, anchor: nat, m1: Match, m2: Match) {
    && Usable(buf, m1) && Usable(buf, m2) && Whole(buf, m1) && Whole(buf, m2)
    && anchor <= m1.start && m1.start + MINMATCH <= m2.start <= m1.End() + 1
    && (m1.End() < m2.start ==> 5 <= m2.len)
    && m1.End() + MFLIMIT <= |buf|
  }

  /** A match found by searching at `ip` from `low` on, wider than `longest`. */
  ghost predicate Wider(buf: seq<byte>, ip: nat, low: nat, longest: nat, m: Match) {
    && low <= m.start <= ip && ip + MINMATCH <= m.End() && longest < m.len
    && Usable(buf, m) && Whole(buf, m)
  }

  lemma ShiftedIsUsable(buf: seq<byte>, m: Match, skip: nat)
    requires Usable(buf, m) && skip + MINMATCH <= m.len && m.start + skip + MFLIMIT <= |buf|
    ensures Usable(buf, Match(m.start + skip, m.ref + skip, m.len - skip))
  {
    SubMatch(buf, m.start, m.ref, m.len, |buf| - LASTLITERALS, skip, m.len - skip);
  }

  lemma SqueezeKeeps(buf: seq<byte>, anchor: nat, m1: Match, m2: Match)
    requires AtSearch3(buf, anchor, m1, m2)
    ensures Squeezed(buf, anchor, m1, Squeeze(m1, m2)) && Squeeze(m1, m2).End() == m2.End()
  {
    hide IsMatch, CannotGrow;
    var s := Squeeze(m1, m2);
    if s != m2 {
      ShiftedIsUsable(buf, m2, s.start - m2.start);
    }
  }

  method WidestMatch(ctx: HcContext, ip: nat, low: nat, longest: nat, maxNbAttempts: int, patternAnalysis: bool) returns (m: Match)
    requires ctx.Valid() && ctx.nextToUpdate - ctx.dictLimit <= ip
    requires low <= ip && ip + MFLIMIT <= |ctx.buf| && ip - low < longest && MINMATCH <= longest && low + longest < |ctx.buf|
    modifies ctx`nextToUpdate, ctx.hashTable, ctx.chainTable
    ensures ctx.Valid() && ctx.nextToUpdate == ip + ctx.dictLimit
    ensures m.len == longest || Wider(ctx.buf, ip, low, longest, m)
    ensures m.len == longest && !patternAnalysis && Exhaustive(ctx.buf, ip, maxNbAttempts) ==>
      NoWider(ctx.buf, ip, low, |ctx.buf| - LASTLITERALS, longest)
  {
    hide Exhaustive, NoWider;
    var ml, ref, start := ctx.InsertAndGetWiderMatch(ip, low, |ctx.buf| - LASTLITERALS, longest, maxNbAttempts, patternAnalysis, false, false);
    m := Match(start, ref, ml);
  }

  // ----- _Search2: a better match overlapping the end of ML1? -----

  /** ML1 skipped ML0; put ML0 back when ML2 starts too close to it. */
  function Restore(m0: Match, m1: Match, m2: Match): Match {
    if m0.start < m1.start && m2.start < m1.start + m0.len then m0 else m1
  }

  lemma Search2Closer(buf: seq<byte>, anchor: nat, m0: Match, m1: Match, m2: Match)
    requires AtSearch2(buf, anchor, m0, m1) && m1.End() + MFLIMIT <= |buf|
    requires Wider(buf, m1.End() - 2, m1.start, m1.len, m2)
    ensures m2.start >= Restore(m0, m1, m2).start && m1.End() + 2 <= m2.End()
    ensures m2.start - Restore(m0, m1, m2).start < 3 ==> AtSearch2(buf, anchor, m0, m2)
    ensures m2.start - Restore(m0, m1, m2).start >= 3 ==> AtSearch3(buf, anchor, Restore(m0, m1, m2), m2)
  {
    hide IsMatch, CannotGrow;
  }

  // ----- _Search3: a third match? -----

  lemma Search3Replace(buf: seq<byte>, anchor: nat, m1: Match, m2: Match, m3: Match)
    requires Squeezed(buf, anchor, m1, m2) && Wider(buf, m2.End() - 3, m2.start, m2.len, m3)
    requires m3.start < m1.End()
    ensures AtSearch3(buf, anchor, m1, m3) && m2.End() < m3.End()
  {
    hide IsMatch, CannotGrow;
  }

  /** ML2 does not fit between ML1 and ML3: what is left of it becomes ML0. */
  function Leftover(m1: Match, m2: Match, m3: Match): Match {
    if m2.start < m1.End() then
      var correction := m1.End() - m2.start;
      if m2.len < correction + MINMATCH then m3
      else Match(m2.start + correction, m2.ref + correction, m2.len - correction)
    else m2
  }

  lemma Search3Drop(buf: seq<byte>, anchor: nat, m1: Match, m2: Match, m3: Match)
    requires Squeezed(buf, anchor, m1, m2) && m2.End() + MFLIMIT <= |buf|
    requires Wider(buf, m2.End() - 3, m2.start, m2.len, m3)
    requires m1.End() <= m3.start < m1.End() + 3
    ensures AtSearch2(buf, m1.End(), Leftover(m1, m2, m3), m3) && m2.End() < m3.End()
  {
    hide IsMatch, CannotGrow;
    var l := Leftover(m1, m2, m3);
    if l != m3 && m2.start < m1.End() {
      ShiftedIsUsable(buf, m2, m1.End() - m2.start);
    }
  }

  /** Three ascending matches: ML1 as it is emitted in front of ML2. */
  function FirstOfThree(m1: Match, m2: Match): Match
    requires m1.start + MINMATCH <= m2.start && MINMATCH <= m2.len
  {
    if m2.start < m1.End() then
      if m2.start - m1.start < OPTIMAL_ML then m1.(len := NewLength(m1, m2)) else m1.(len := m2.start - m1.start)
    else m1
  }

  lemma Search3Ascend(buf: seq<byte>, anchor: nat, m1: Match, m2: Match, m3: Match)
    requires Squeezed(buf, anchor, m1, m2) && m2.End() + MFLIMIT <= |buf|
    requires Wider(buf, m2.End() - 3, m2.start, m2.len, m3)
    requires m1.End() + 3 <= m3.start
    ensures var f := FirstOfThree(m1, m2);
            var s := if m2.start < m1.End() then Squeeze(f, m2) else m2;
            Usable(buf, f) && f.start == m1.start && AtSearch3(buf, f.End(), s, m3) && m2.End() < m3.End()
            && s.start <= f.End() + 1
  {
    hide IsMatch, CannotGrow;
    var f := FirstOfThree(m1, m2);
    if f != m1 { Shortened(buf, m1, f.len); }
    var s := if m2.start < m1.End() then Squeeze(f, m2) else m2;
    if s != m2 { ShiftedIsUsable(buf, m2, s.start - m2.start); }
  }

  lemma BeatenByNone(buf: seq<byte>, attempts: int, m: Match, back: nat)
    requires MINMATCH <= m.len && (back == 2 || back == 3)
    requires m.End() + MFLIMIT <= |buf| && attempts <= 128 && Exhaustive(buf, m.End() - back, attempts) ==>
               NoWider(buf, m.End() - back, m.start, |buf| - LASTLITERALS, m.len)
    ensures Unbeaten(buf, attempts, m.start, m.End())
  {
    hide Exhaustive, NoWider;
  }

  // ----- The parser -----

  datatype State = State(pc: Label, ip: nat, m0: Match, m1: Match, m2: Match)

  /** What holds at each label; the index has not gone past the next search. */
  ghost predicate AtLabel(buf: seq<byte>, s: State, anchor: nat, indexed: int) {
    match s.pc
    case MainLoop => anchor <= s.ip <= |buf| && indexed <= s.ip
    case Search2 => AtSearch2(buf, anchor, s.m0, s.m1) && indexed <= s.m1.End() - 2
    case Search3 => AtSearch3(buf, anchor, s.m1, s.m2) && indexed <= s.m2.End() - 3
  }

  /** Each position is searched; a match may be moved four bytes while better ones are tried. */
  function LazyDiligence(maxNbAttempts: int): Diligence {
    Diligence(maxNbAttempts, 1, 0, 4, true)
  }

  /** The literals passed over so far, up to the first match under consideration. */
  ghost predicate Attentive(buf: seq<byte>, d: Diligence, start: nat, anchor: nat, s: State, ss: seq<Sequence>) {
    && QuietRuns(buf, d, start, anchor, ss)
    && Quiet(buf, d, RunStart(d, start, anchor),
             match s.pc case MainLoop => s.ip case Search2 => s.m0.start - 2 case Search3 => s.m1.start - 4)
    && Lengths(buf, d, anchor, ss, match s.pc case MainLoop => MANY case Search2 => s.m0.start - anchor + 2 case Search3 => s.m1.start - anchor)
  }

  /** How far the parser has looked: it grows from label to label. */
  function Reach(s: State): nat {
    match s.pc
    case MainLoop => s.ip
    case Search2 => s.m1.End()
    case Search3 => s.m2.End()
  }

  /** The parser has advanced from `s` to `t`. */
  predicate Advances(s: State, t: State) {
    Reach(s) < Reach(t) || (Reach(s) == Reach(t) && s.pc != MainLoop && t.pc == MainLoop)
  }

  /** From _Search2: extends ML1, replaces it, or emits it. */
  method StepSearch2(ctx: HcContext, ghost start: nat, dst: array<byte>, op: nat, anchor: nat, s: State,
                     maxNbAttempts: int, limit: Limit, ghost ss: seq<Sequence>)
    returns (overflow: bool, op': nat, anchor': nat, s': State, ghost ss': seq<Sequence>)
    requires ctx.Valid() && Output(ctx.buf, start, dst, op, anchor, limit, ss)
    requires s.pc == Search2 && AtLabel(ctx.buf, s, anchor, ctx.nextToUpdate - ctx.dictLimit)
    requires Attentive(ctx.buf, LazyDiligence(maxNbAttempts), start, anchor, s, ss)
    requires dst as object != ctx.hashTable && dst as object != ctx.chainTable
    modifies ctx`nextToUpdate, ctx.hashTable, ctx.chainTable, dst
    ensures ctx.Valid() && Output(ctx.buf, start, dst, op', anchor', limit, ss')
    ensures overflow ==>
      limit != NotLimited && Stuck(ctx.buf, LazyDiligence(maxNbAttempts), start, op', anchor', s'.m1, OutputEnd(dst, limit), ss')
    ensures !overflow ==> AtLabel(ctx.buf, s', anchor', ctx.nextToUpdate - ctx.dictLimit) && Advances(s, s')
    ensures !overflow ==> Attentive(ctx.buf, LazyDiligence(maxNbAttempts), start, anchor', s', ss')
  {
    hide IsMatch, CannotGrow, Emitted, AtSearch3, Output, Quiet, QuietRuns, Lengths, Stuck, Unbeaten, Exhaustive, NoWider;
    var buf, m0, m1 := ctx.buf, s.m0, s.m1;
    ghost var d := LazyDiligence(maxNbAttempts);
    QuietWithin(buf, d, anchor, m0.start - 2, anchor, m1.start - 4);
    QuietWithin(buf, d, anchor, m0.start - 2, anchor, m0.start - 4);
    SmallerGap(buf, d, anchor, ss, m0.start - anchor + 2, m1.start - anchor);
    SmallerGap(buf, d, anchor, ss, m0.start - anchor + 2, m0.start - anchor);
    var m2 := m1;
    if m1.End() + MFLIMIT <= |buf| {
      m2 := WidestMatch(ctx, m1.End() - 2, m1.start, m1.len, maxNbAttempts, maxNbAttempts > 128);
    }
    s', op', anchor', ss' := s, op, anchor, ss;
    if m2.len == m1.len {
      BeatenByNone(buf, maxNbAttempts, m1, 2);
      overflow, op', anchor', ss' := EmitSearched(buf, start, dst, op, anchor, m1, limit, d, ss);
      if !overflow { s' := s.(pc := MainLoop, ip := anchor'); }
      NothingBetween(buf, d, anchor', anchor');
    } else {
      overflow := false;
      Search2Closer(buf, anchor, m0, m1, m2);
      var r := Restore(m0, m1, m2);
      if m2.start - r.start < 3 {
        s' := s.(m1 := m2);
      } else {
        s' := s.(pc := Search3, m1 := r, m2 := m2);
      }
    }
  }

  /** From _Search3: looks for ML3, then emits ML1 and perhaps ML2, or moves on to
      the better pair of matches. */
  method StepSearch3(ctx: HcContext, ghost start: nat, dst: array<byte>, op: nat, anchor: nat, s: State,
                     maxNbAttempts: int, limit: Limit, ghost ss: seq<Sequence>)
    returns (overflow: bool, op': nat, anchor': nat, s': State, ghost ss': seq<Sequence>)
    requires ctx.Valid() && Output(ctx.buf, start, dst, op, anchor, limit, ss)
    requires s.pc == Search3 && AtLabel(ctx.buf, s, anchor, ctx.nextToUpdate - ctx.dictLimit)
    requires Attentive(ctx.buf, LazyDiligence(maxNbAttempts), start, anchor, s, ss)
    requires dst as object != ctx.hashTable && dst as object != ctx.chainTable
    modifies ctx`nextToUpdate, ctx.hashTable, ctx.chainTable, dst
    ensures ctx.Valid() && Output(ctx.buf, start, dst, op', anchor', limit, ss')
    ensures overflow ==>
      limit != NotLimited && Stuck(ctx.buf, LazyDiligence(maxNbAttempts), start, op', anchor', s'.m1, OutputEnd(dst, limit), ss')
    ensures !overflow ==> AtLabel(ctx.buf, s', anchor', ctx.nextToUpdate - ctx.dictLimit) && Advances(s, s')
    ensures !overflow ==> Attentive(ctx.buf, LazyDiligence(maxNbAttempts), start, anchor', s', ss')
  {
    hide IsMatch, CannotGrow, Emitted, Output, Squeeze, FirstOfThree, Leftover, Quiet, QuietRuns, Lengths, Stuck, Unbeaten, Exhaustive, NoWider;
    var buf, m1 := ctx.buf, s.m1;
    ghost var d := LazyDiligence(maxNbAttempts);
    SqueezeKeeps(buf, anchor, m1, s.m2);
    var m2 := Squeeze(m1, s.m2);
    var m3 := m2;
    if m2.End() + MFLIMIT <= |buf| {
      m3 := WidestMatch(ctx, m2.End() - 3, m2.start, m2.len, maxNbAttempts, maxNbAttempts > 128);
    }
    if m3.len == m2.len {
      BeatenByNone(buf, maxNbAttempts, m2, 3);
      overflow, op', anchor', s', ss' := EmitTwo(ctx, start, dst, op, anchor, s, m2, maxNbAttempts, limit, ss);
    } else if m3.start < m1.End() {
      Search3Replace(buf, anchor, m1, m2, m3);
      overflow, op', anchor', s', ss' := false, op, anchor, s.(m2 := m3), ss;
    } else {
      overflow, op', anchor', s', ss' := EmitFirst(ctx, start, dst, op, anchor, s, m2, m3, maxNbAttempts, limit, ss);
    }
  }

  /** ML3 begins behind ML1: ML1 is emitted, and ML2 dropped or kept in front of ML3. */
  method EmitFirst(ctx: HcContext, ghost start: nat, dst: array<byte>, op: nat, anchor: nat, s: State, squeezed: Match, m3: Match,
                   ghost maxNbAttempts: int, limit: Limit, ghost ss: seq<Sequence>)
    returns (overflow: bool, op': nat, anchor': nat, s': State, ghost ss': seq<Sequence>)
    requires Output(ctx.buf, start, dst, op, anchor, limit, ss) && Squeezed(ctx.buf, anchor, s.m1, squeezed)
    requires squeezed.End() + MFLIMIT <= |ctx.buf| && Wider(ctx.buf, squeezed.End() - 3, squeezed.start, squeezed.len, m3)
    requires s.m1.End() <= m3.start && ctx.nextToUpdate - ctx.dictLimit <= squeezed.End() - 3
    requires s.pc == Search3 && squeezed.End() == s.m2.End() && Attentive(ctx.buf, LazyDiligence(maxNbAttempts), start, anchor, s, ss)
    modifies dst
    ensures Output(ctx.buf, start, dst, op', anchor', limit, ss')
    ensures overflow ==>
      limit != NotLimited && Stuck(ctx.buf, LazyDiligence(maxNbAttempts), start, op', anchor', s'.m1, OutputEnd(dst, limit), ss')
    ensures !overflow ==> AtLabel(ctx.buf, s', anchor', ctx.nextToUpdate - ctx.dictLimit) && Advances(s, s')
    ensures !overflow ==> Attentive(ctx.buf, LazyDiligence(maxNbAttempts), start, anchor', s', ss')
  {
    hide IsMatch, CannotGrow, Emitted, Output, Squeeze, FirstOfThree, Leftover, Quiet, QuietRuns, Lengths, Stuck, Unbeaten;
    var buf, m1, m2 := ctx.buf, s.m1, squeezed;
    ghost var d := LazyDiligence(maxNbAttempts);
    if m3.start < m1.End() + 3 {
      Search3Drop(buf, anchor, m1, m2, m3);
      overflow, op', anchor', ss' := EmitSearched(buf, start, dst, op, anchor, m1, limit, d, ss);
      s' := if overflow then s else State(Search2, s.ip, Leftover(m1, m2, m3), m3, m2);
      if !overflow {
        NothingBetween(buf, d, anchor', s'.m0.start - 2);
        SmallerGap(buf, d, anchor', ss', GapAfter(buf, d, m1), s'.m0.start - anchor' + 2);
      }
    } else {
      Search3Ascend(buf, anchor, m1, m2, m3);
      var f := FirstOfThree(m1, m2);
      if m2.start < m1.End() { m2 := Squeeze(f, m2); }
      overflow, op', anchor', ss' := EmitSearched(buf, start, dst, op, anchor, f, limit, d, ss);
      s' := if overflow then s.(m1 := f) else State(Search3, s.ip, s.m0, m2, m3);
      if !overflow {
        NothingBetween(buf, d, anchor', m2.start - 4);
        SmallerGap(buf, d, anchor', ss', GapAfter(buf, d, f), m2.start - anchor');
      }
    }
  }

  /** No third match: ML1, cut where ML2 begins, then ML2. */
  method EmitTwo(ctx: HcContext, ghost start: nat, dst: array<byte>, op: nat, anchor: nat, s: State, m2: Match,
                 ghost maxNbAttempts: int, limit: Limit, ghost ss: seq<Sequence>)
    returns (overflow: bool, op': nat, anchor': nat, s': State, ghost ss': seq<Sequence>)
    requires Output(ctx.buf, start, dst, op, anchor, limit, ss) && Squeezed(ctx.buf, anchor, s.m1, m2)
    requires s.pc == Search3 && Attentive(ctx.buf, LazyDiligence(maxNbAttempts), start, anchor, s, ss)
    requires Unbeaten(ctx.buf, maxNbAttempts, m2.start, m2.End())
    modifies dst
    ensures Output(ctx.buf, start, dst, op', anchor', limit, ss')
    ensures overflow ==>
      limit != NotLimited && Stuck(ctx.buf, LazyDiligence(maxNbAttempts), start, op', anchor', s'.m1, OutputEnd(dst, limit), ss')
    ensures !overflow ==> anchor' == m2.End() && s' == s.(pc := MainLoop, ip := anchor')
    ensures !overflow ==> Attentive(ctx.buf, LazyDiligence(maxNbAttempts), start, anchor', s', ss')
  {
    hide IsMatch, CannotGrow, Emitted, Output, Quiet, QuietRuns, Lengths, Stuck, Unbeaten, Exhaustive, NoWider;
    var buf, m1 := ctx.buf, s.m1;
    ghost var d := LazyDiligence(maxNbAttempts);
    if m2.start < m1.End() {
      Shortened(buf, m1, m2.start - m1.start);
      m1 := m1.(len := m2.start - m1.start);
    }
    overflow, op', anchor', ss' := EmitSearched(buf, start, dst, op, anchor, m1, limit, d, ss);
    s' := s.(m1 := m1);
    if !overflow {
      NothingBetween(buf, d, anchor', m2.start - 4);
      SmallerGap(buf, d, anchor', ss', GapAfter(buf, d, m1), m2.start - anchor');
      overflow, op', anchor', ss' := EmitSearched(buf, start, dst, op', anchor', m2, limit, d, ss');
      s' := if overflow then s.(m1 := m2) else s.(pc := MainLoop, ip := anchor');
      NothingBetween(buf, d, anchor', anchor');
    }
  }

  lemma FirstOfLabel(buf: seq<byte>, anchor: nat, m: Match)
    requires anchor <= m.start && m.start + MFLIMIT <= |buf| && MINMATCH <= m.len
    requires IsMatch(buf, m.start, m.ref, m.len, |buf| - LASTLITERALS) && CannotGrow(buf, m.start - m.ref, m.End())
    ensures AtSearch2(buf, anchor, m, m) && m.ref <= m.start
  {
  }

  /** From the main loop: looks for a first match at `ip`. */
  method StepMain(ctx: HcContext, ghost start: nat, ghost anchor: nat, s: State, maxNbAttempts: int, ghost ss: seq<Sequence>)
    returns (s': State)
    requires ctx.Valid() && s.pc == MainLoop && AtLabel(ctx.buf, s, anchor, ctx.nextToUpdate - ctx.dictLimit)
    requires s.ip + MFLIMIT <= |ctx.buf| && Attentive(ctx.buf, LazyDiligence(maxNbAttempts), start, anchor, s, ss)
    modifies ctx`nextToUpdate, ctx.hashTable, ctx.chainTable
    ensures ctx.Valid() && AtLabel(ctx.buf, s', anchor, ctx.nextToUpdate - ctx.dictLimit) && Advances(s, s')
    ensures Attentive(ctx.buf, LazyDiligence(maxNbAttempts), start, anchor, s', ss)
  {
    hide IsMatch, CannotGrow, Quiet, QuietRuns, Lengths, Exhaustive, Matchless, AtSearch2, Usable;
    ghost var d := LazyDiligence(maxNbAttempts);
    var ml, ref := ctx.InsertAndFindBestMatch(s.ip, |ctx.buf| - LASTLITERALS, maxNbAttempts, maxNbAttempts > 128);
    if ml < MINMATCH {
      s' := s.(ip := s.ip + 1);
      QuietGrows(ctx.buf, d, anchor, s.ip);
    } else {
      QuietWithin(ctx.buf, d, anchor, s.ip, anchor, s.ip - 2);
      SmallerGap(ctx.buf, d, anchor, ss, MANY, s.ip - anchor + 2);
      var m := Match(s.ip, ref, ml);
      FirstOfLabel(ctx.buf, anchor, m);
      s' := State(Search2, s.ip, m, m, s.m2);
    }
  }

  /** LZ4HC_compress_hashChain in its three output modes: what it writes is a block
      that every decoder accepts and that stands for the consumed source. */
  method CompressHashChain(ctx: HcContext, start: nat, dst: array<byte>, maxNbAttempts: int, limit: Limit)
    returns (result: nat, consumed: nat, ghost b: Block)
    requires ctx.Valid() && ctx.nextToUpdate - ctx.dictLimit <= start <= |ctx.buf|
    requires dst as object != ctx.hashTable && dst as object != ctx.chainTable
    requires limit == NotLimited ==> CompressBound(|ctx.buf| - start) <= dst.Length
    requires limit == FillOutput ==> 1 <= dst.Length
    modifies ctx`nextToUpdate, ctx.hashTable, ctx.chainTable, dst
    ensures ctx.Valid()
    ensures result == 0 ==> limit == LimitedOutput && DoesNotFit(ctx.buf, LazyDiligence(maxNbAttempts), start, b, dst.Length)
    ensures 0 < result ==> result <= dst.Length && IsBlockOf(ctx.buf, start, consumed, dst[..result], b)
    ensures 0 < result && limit != FillOutput ==> consumed == |ctx.buf| - start
    ensures 0 < result && limit == FillOutput ==> consumed == |ctx.buf| - start || dst.Length <= result + 1
    ensures 0 < result ==>
      Searched(ctx.buf, LazyDiligence(maxNbAttempts), start, consumed, b, if limit == FillOutput then 4 + 10 else 0)
  {
    hide IsMatch, Emitted, IsBlockOf, Quiet, QuietRuns, Lengths, Stuck, Searched, DoesNotFit;
    var buf := ctx.buf;
    ghost var d := LazyDiligence(maxNbAttempts);
    var overflowed, pending := false, Match(0, 0, 0);
    var op: nat, anchor: nat := 0, start;
    ghost var ss: seq<Sequence> := [];
    assert dst[..0] == [];
    NothingEmitted(buf, start);
    if |buf| - start > MFLIMIT {
      var overflow, s := false, State(MainLoop, start, pending, pending, pending);
      NoRunsYet(buf, d, start);
      NothingBetween(buf, d, start, start);
      while !overflow && (s.pc != MainLoop || s.ip + MFLIMIT <= |buf|)
        invariant ctx.Valid() && ctx.buf == buf && Output(buf, start, dst, op, anchor, limit, ss)
        invariant overflow ==> limit != NotLimited && Stuck(buf, d, start, op, anchor, s.m1, OutputEnd(dst, limit), ss)
        invariant !overflow ==> AtLabel(buf, s, anchor, ctx.nextToUpdate - ctx.dictLimit) && Attentive(buf, d, start, anchor, s, ss)
        decreases !overflow, |buf| - Reach(s), if s.pc == MainLoop then 0 else 1
      {
        match s.pc
        case MainLoop =>
          s := StepMain(ctx, start, anchor, s, maxNbAttempts, ss);
        case Search2 =>
          overflow, op, anchor, s, ss := StepSearch2(ctx, start, dst, op, anchor, s, maxNbAttempts, limit, ss);
        case Search3 =>
          overflow, op, anchor, s, ss := StepSearch3(ctx, start, dst, op, anchor, s, maxNbAttempts, limit, ss);
      }
      overflowed, pending := overflow, s.m1;
      if !overflow { QuietToEnd(buf, d, anchor, s.ip); }
    }
    result, consumed, b := FinishSearched(buf, start, dst, op, anchor, overflowed, pending, limit, d, ss);
  }
}
