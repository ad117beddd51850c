/** The states of LZ4_decompress_generic and what holds in each of them.

    A call decodes `src` behind the history, which is `dict` followed by the bytes in
    front of the output.  Partial decoding may be handed more bytes than the block
    has, as long as it is not asked for more than the block's content; `k` is the
    size of the block within `src`.
 */
module DecoderState {
  import opened Basics
  import opened BlockFormat
  import opened DecoderSpec

  /** `prefix64k` stands for the withPrefix64k mode: the history right in front of the
      output is known to hold everything an offset can reach. */
  datatype Call = Call(src: seq<byte>, dict: seq<byte>, partial: bool, prefix64k: bool)

  datatype Pc =
    | Token
    | Literals(tokenAt: nat, length: nat)
    | MatchCode(tokenAt: nat, offset: nat)
    | MatchCopy(tokenAt: nat, offset: nat, length: nat)
    | Finished
    | Error

  datatype State = State(pc: Pc, ip: nat, op: nat)

  /** The calls that must succeed, on an output area that ends at `oend`.  An area of no
      bytes takes a single block: a token of zero. */
  ghost predicate Acceptable(c: Call, k: nat, hist: seq<byte>, oend: nat)
    requires k <= |c.src|
  {
    Decodable(c.src[..k], hist) &&
    var total := |Output(hist, ParseBlock(c.src[..k]).value)|;
    if c.partial then k == |c.src| || |c.dict| + oend <= total
    else k == |c.src| && total <= |c.dict| + oend && (|hist| < |c.dict| + oend || c.src == [0])
  }

  /** Partial decoding promises something for acceptable calls only. */
  ghost predicate Meant(c: Call, k: nat, hist: seq<byte>, oend: nat)
    requires k <= |c.src|
  {
    if c.partial then Acceptable(c, k, hist, oend) else k == |c.src|
  }

  /** The output so far: `out`, cut off at the end of the area in partial decoding. */
  ghost predicate Shown(c: Call, d: seq<byte>, op: nat, out: seq<byte>) {
    && op <= |d| && c.dict + d[..op] <= out
    && (c.dict + d[..op] == out || (c.partial && op == |d|))
  }

  ghost predicate Reading(c: Call, k: nat, hist: seq<byte>, oend: nat, tokenAt: nat, ss: seq<Sequence>) {
    && k <= |c.src| && tokenAt < |c.src|
    && (Meant(c, k, hist, oend) ==> ReadUpTo(c.src[..k], hist, Replay(hist, ss), tokenAt, ss))
  }

  ghost predicate AtToken(c: Call, k: nat, hist: seq<byte>, d: seq<byte>, tokenAt: nat, op: nat, ss: seq<Sequence>) {
    && Reading(c, k, hist, |d|, tokenAt, ss) && op <= |d|
    && (Meant(c, k, hist, |d|) ==> Shown(c, d, op, Replay(hist, ss)))
  }

  /** Where the match length code of the sequence at `tokenAt` is. */
  function MatchAt(src: seq<byte>, tokenAt: nat): nat
    requires tokenAt < |src| && LiteralField(src, tokenAt).Some?
  {
    LiteralField(src, tokenAt).value.0 + LiteralField(src, tokenAt).value.1 + 2
  }

  function LiteralsAt(src: seq<byte>, tokenAt: nat): (r: seq<byte>)
    requires tokenAt < |src| && LiteralField(src, tokenAt).Some? && MatchAt(src, tokenAt) <= |src| + 2
    ensures |r| == LiteralField(src, tokenAt).value.0
  {
    src[LiteralField(src, tokenAt).value.1..MatchAt(src, tokenAt) - 2]
  }

  /** The literals are copied, the offset is read, and the match has yet to come. */
  ghost predicate AfterLiterals(c: Call, k: nat, hist: seq<byte>, d: seq<byte>, op: nat, ss: seq<Sequence>,
                                tokenAt: nat, offset: nat) {
    && Reading(c, k, hist, |d|, tokenAt, ss)
    && LiteralField(c.src, tokenAt).Some? && MatchAt(c.src, tokenAt) < |c.src|
    && offset == OffsetAt(c.src, MatchAt(c.src, tokenAt) - 2)
    && op < |d| && (!c.partial ==> op + MFLIMIT <= |d|)
    && (Meant(c, k, hist, |d|) ==> c.dict + d[..op] == Replay(hist, ss) + LiteralsAt(c.src, tokenAt))
  }

  ghost predicate Complete(c: Call, k: nat, hist: seq<byte>, d: seq<byte>, op: nat)
    requires k <= |c.src|
  {
    && op <= |d|
    && if c.partial then
         Acceptable(c, k, hist, |d|) ==>
           var all := Output(hist, ParseBlock(c.src[..k]).value);
           && |c.dict| + op == (if |c.dict| + |d| <= |all| then |c.dict| + |d| else |all|)
           && c.dict + d[..op] <= all
       else
         && ParseBlock(c.src).Some? && Reachable(hist, ParseBlock(c.src).value.sequences)
         && c.dict + d[..op] == Output(hist, ParseBlock(c.src).value)
  }

  ghost predicate At(c: Call, k: nat, hist: seq<byte>, d: seq<byte>, s: State, ss: seq<Sequence>)
    requires k <= |c.src|
  {
    match s.pc
    case Token => AtToken(c, k, hist, d, s.ip, s.op, ss)
    case Literals(tokenAt, length) =>
      && AtToken(c, k, hist, d, tokenAt, s.op, ss)
      && LiteralField(c.src, tokenAt) == Some((length, s.ip))
    case MatchCode(tokenAt, offset) =>
      && AfterLiterals(c, k, hist, d, s.op, ss, tokenAt, offset)
      && s.ip == MatchAt(c.src, tokenAt)
    case MatchCopy(tokenAt, offset, length) =>
      && AfterLiterals(c, k, hist, d, s.op, ss, tokenAt, offset)
      && MINMATCH <= length && s.ip < |c.src|
      && MatchField(c.src, tokenAt, MatchAt(c.src, tokenAt)) == Some((length - MINMATCH, s.ip))
    case Finished => Complete(c, k, hist, d, s.op)
    case Error => !Acceptable(c, k, hist, |d|)
  }

  // ----- What an acceptable call meets next -----

  /** What `NextLiterals` says of the block, said of the whole input. */
  lemma Upcoming(c: Call, k: nat, hist: seq<byte>, oend: nat, tokenAt: nat, ss: seq<Sequence>)
    requires Reading(c, k, hist, oend, tokenAt, ss) && Acceptable(c, k, hist, oend)
    ensures LiteralField(c.src, tokenAt).Some?
    ensures var (ll, at) := LiteralField(c.src, tokenAt).value;
            var out, all := Replay(hist, ss), Output(hist, ParseBlock(c.src[..k]).value);
            && at + ll <= k && out <= all
            && (at + ll == k ==> out + c.src[at..k] == all)
            && (at + ll < k ==>
                  && at + ll + 2 <= k && MatchField(c.src, tokenAt, at + ll + 2).Some?
                  && MatchField(c.src, tokenAt, at + ll + 2).value.1 + 1 + LASTLITERALS <= k
                  && |out| + ll + MFLIMIT <= |all|
                  && |out| + ll + MatchField(c.src, tokenAt, at + ll + 2).value.0 + MINMATCH + LASTLITERALS <= |all|
                  && 1 <= OffsetAt(c.src, at + ll) <= |out| + ll
                  && MatchField(c.src[..k], tokenAt, at + ll + 2) == MatchField(c.src, tokenAt, at + ll + 2))
    ensures tokenAt < k && LiteralField(c.src[..k], tokenAt) == LiteralField(c.src, tokenAt)
  {
    hide Decodable, Replay, Output, ReadField, ReadUpTo;
    var blk := c.src[..k];
    NextLiterals(blk, hist, Replay(hist, ss), tokenAt, ss);
    AcceptablePrefix(c, k, hist, oend, tokenAt, ss);
    FieldOfPrefix(c.src[tokenAt] as nat / 16, c.src, k, tokenAt + 1);
    var (ll, at) := LiteralField(blk, tokenAt).value;
    if at + ll == k {
      assert blk[at..] == c.src[at..k];
    } else {
      FieldOfPrefix(c.src[tokenAt] as nat % 16, c.src, k, at + ll + 2);
    }
  }

  lemma AcceptablePrefix(c: Call, k: nat, hist: seq<byte>, oend: nat, tokenAt: nat, ss: seq<Sequence>)
    requires k <= |c.src| && Acceptable(c, k, hist, oend)
    requires ReadUpTo(c.src[..k], hist, Replay(hist, ss), tokenAt, ss)
    ensures Replay(hist, ss) <= Output(hist, ParseBlock(c.src[..k]).value)
  {
    ReadIsPrefix(c.src[..k], hist, Replay(hist, ss), tokenAt, ss);
  }

  // ----- Errors -----

  lemma LiteralError(c: Call, k: nat, hist: seq<byte>, oend: nat, tokenAt: nat, ss: seq<Sequence>)
    requires Reading(c, k, hist, oend, tokenAt, ss)
    requires LiteralField(c.src, tokenAt).Some? ==> MatchAt(c.src, tokenAt) > |c.src| + 2
    ensures !Acceptable(c, k, hist, oend)
  {
    hide Acceptable, LiteralField, MatchField;
    if Acceptable(c, k, hist, oend) {
      Upcoming(c, k, hist, oend, tokenAt, ss);
    }
  }

  /** Full decoding, literals too close to an end without being the last ones. */
  lemma LastError(c: Call, k: nat, hist: seq<byte>, d: seq<byte>, tokenAt: nat, op: nat, ss: seq<Sequence>, ll: nat, at: nat)
    requires !c.partial && AtToken(c, k, hist, d, tokenAt, op, ss) && LiteralField(c.src, tokenAt) == Some((ll, at))
    requires op + ll + MFLIMIT > |d| || at + ll + 2 + 1 + LASTLITERALS > |c.src|
    requires at + ll != |c.src| || op + ll > |d|
    ensures !Acceptable(c, k, hist, |d|)
  {
    hide LiteralField, MatchField, Decodable, OffsetAt;
    if Acceptable(c, k, hist, |d|) {
      Upcoming(c, k, hist, |d|, tokenAt, ss);
    }
  }

  /** Behind the literals an acceptable call has a match to read. */
  lemma NotLast(c: Call, k: nat, hist: seq<byte>, d: seq<byte>, op: nat, ss: seq<Sequence>, tokenAt: nat, offset: nat)
    requires AfterLiterals(c, k, hist, d, op, ss, tokenAt, offset) && Acceptable(c, k, hist, |d|)
    ensures MatchAt(c.src, tokenAt) - 2 < k
  {
    hide LiteralField, MatchField, Decodable, OffsetAt;
    Upcoming(c, k, hist, |d|, tokenAt, ss);
    assert |Replay(hist, ss)| + LiteralField(c.src, tokenAt).value.0 == |c.dict| + op;
  }

  lemma MatchError(c: Call, k: nat, hist: seq<byte>, d: seq<byte>, op: nat, ss: seq<Sequence>, tokenAt: nat, offset: nat)
    requires AfterLiterals(c, k, hist, d, op, ss, tokenAt, offset)
    requires var f := MatchField(c.src, tokenAt, MatchAt(c.src, tokenAt));
             || f == None || f.value.1 + LASTLITERALS - 1 > |c.src| || offset > op + |c.dict|
             || (!c.partial && op + f.value.0 + MINMATCH + LASTLITERALS > |d|)
    ensures !Acceptable(c, k, hist, |d|)
  {
    hide LiteralField, MatchField, Decodable, OffsetAt;
    if Acceptable(c, k, hist, |d|) {
      NotLast(c, k, hist, d, op, ss, tokenAt, offset);
      Upcoming(c, k, hist, |d|, tokenAt, ss);
    }
  }

  // ----- Sequences -----

  /** The sequence at `tokenAt`, once its match length code is known. */
  function Current(src: seq<byte>, tokenAt: nat, length: nat): Sequence
    requires tokenAt < |src| && LiteralField(src, tokenAt).Some? && MatchAt(src, tokenAt) <= |src|
  {
    Sequence(LiteralsAt(src, tokenAt), OffsetAt(src, MatchAt(src, tokenAt) - 2), length)
  }

  lemma SequenceDone(c: Call, k: nat, hist: seq<byte>, d: seq<byte>, op: nat, ss: seq<Sequence>, tokenAt: nat,
                     offset: nat, length: nat, end: nat)
    requires AfterLiterals(c, k, hist, d, op, ss, tokenAt, offset) && offset <= |c.dict| + op && MINMATCH <= length
    requires MatchField(c.src, tokenAt, MatchAt(c.src, tokenAt)) == Some((length - MINMATCH, end)) && end < |c.src|
    ensures Reading(c, k, hist, |d|, end, ss + [Current(c.src, tokenAt, length)])
    ensures Meant(c, k, hist, |d|) ==>
              Replay(hist, ss + [Current(c.src, tokenAt, length)]) == CopyMatch(c.dict + d[..op], offset, length)
  {
    hide LiteralField, MatchField, Acceptable, OffsetAt, CopyMatch, ReadUpTo, LiteralsAt;
    var s := Current(c.src, tokenAt, length);
    assert (ss + [s])[..|ss|] == ss;
    if Meant(c, k, hist, |d|) {
      if c.partial {
        NotLast(c, k, hist, d, op, ss, tokenAt, offset);
        Upcoming(c, k, hist, |d|, tokenAt, ss);
      } else {
        assert c.src[..k] == c.src;
      }
      BlockSequence(c.src, k, hist, Replay(hist, ss), ss, tokenAt, length, end);
    }
  }

  lemma BlockSequence(src: seq<byte>, k: nat, hist: seq<byte>, out: seq<byte>, ss: seq<Sequence>, tokenAt: nat,
                      length: nat, end: nat)
    requires k <= |src| && tokenAt < k && ReadUpTo(src[..k], hist, out, tokenAt, ss) && MINMATCH <= length
    requires LiteralField(src, tokenAt).Some? && MatchAt(src, tokenAt) <= k
    requires LiteralField(src[..k], tokenAt) == LiteralField(src, tokenAt)
    requires MatchField(src[..k], tokenAt, MatchAt(src, tokenAt)) == Some((length - MINMATCH, end))
    requires OffsetAt(src, MatchAt(src, tokenAt) - 2) <= |out| + |LiteralsAt(src, tokenAt)|
    ensures var s := Current(src, tokenAt, length);
            ReadUpTo(src[..k], hist, CopyMatch(out + s.literals, s.offset, length), end, ss + [s])
  {
    hide LiteralField, MatchField, OffsetAt, ReadUpTo, CopyMatch;
    var (ll, at) := LiteralField(src, tokenAt).value;
    SequenceInBlock(src, k, tokenAt, ll, at, length);
    SequenceRead(src[..k], hist, out, tokenAt, ss, ll, at, length - MINMATCH, end);
  }

  lemma SequenceInBlock(src: seq<byte>, k: nat, tokenAt: nat, ll: nat, at: nat, length: nat)
    requires k <= |src| && tokenAt < |src| && LiteralField(src, tokenAt) == Some((ll, at)) && at + ll + 2 <= k
    requires MINMATCH <= length
    ensures SequenceAt(src[..k], tokenAt, ll, at, length - MINMATCH) == Current(src, tokenAt, length)
    ensures OffsetAt(src[..k], at + ll) == OffsetAt(src, at + ll)
  {
    assert src[..k][at..at + ll] == src[at..at + ll];
  }

  /** A copied match, cut off at the end of the area in partial decoding. */
  lemma MatchDone(c: Call, k: nat, hist: seq<byte>, d: seq<byte>, d': seq<byte>, op: nat, n: nat, ss: seq<Sequence>,
                  tokenAt: nat, offset: nat, length: nat, end: nat)
    requires AfterLiterals(c, k, hist, d, op, ss, tokenAt, offset) && offset <= |c.dict| + op && MINMATCH <= length
    requires MatchField(c.src, tokenAt, MatchAt(c.src, tokenAt)) == Some((length - MINMATCH, end)) && end < |c.src|
    requires |d'| == |d| && op + n <= |d| && (n == length || (c.partial && n < length && op + n == |d|))
    requires (c.partial && offset == 0) || c.dict + d'[..op + n] == CopyMatch(c.dict + d[..op], offset, n)
    ensures AtToken(c, k, hist, d', end, op + n, ss + [Current(c.src, tokenAt, length)])
  {
    hide LiteralField, MatchField, Acceptable, OffsetAt, ReadUpTo, CopyMatch;
    SequenceDone(c, k, hist, d, op, ss, tokenAt, offset, length, end);
    if c.partial && Meant(c, k, hist, |d|) {
      NotLast(c, k, hist, d, op, ss, tokenAt, offset);
      Upcoming(c, k, hist, |d|, tokenAt, ss);
    }
    CopyMatchSplit(c.dict + d[..op], offset, n, length - n);
  }

  // ----- The end -----

  lemma LastDone(c: Call, k: nat, hist: seq<byte>, d: seq<byte>, d': seq<byte>, tokenAt: nat, op: nat, ss: seq<Sequence>,
                 ll: nat, at: nat)
    requires !c.partial && k == |c.src| && AtToken(c, k, hist, d, tokenAt, op, ss)
    requires LiteralField(c.src, tokenAt) == Some((ll, at)) && at + ll == |c.src|
    requires op + ll <= |d'| && d'[..op + ll] == d[..op] + c.src[at..]
    ensures Complete(c, k, hist, d', op + ll)
  {
    hide LiteralField, ParseBlock;
    assert c.src[..k] == c.src;
    LastRead(c.src, hist, Replay(hist, ss), tokenAt, ss, ll, at);
    assert c.dict + (d[..op] + c.src[at..]) == (c.dict + d[..op]) + c.src[at..];
  }

  /** Partial decoding with the output area full behind a match. */
  lemma AreaFull(c: Call, k: nat, hist: seq<byte>, d: seq<byte>, ip: nat, ss: seq<Sequence>)
    requires c.partial && AtToken(c, k, hist, d, ip, |d|, ss)
    ensures Complete(c, k, hist, d, |d|)
  {
    hide Decodable;
    if Acceptable(c, k, hist, |d|) {
      AcceptablePrefix(c, k, hist, |d|, ip, ss);
    }
  }

  /** What is announced next is part of the content. */
  lemma LiteralsShown(c: Call, k: nat, hist: seq<byte>, oend: nat, tokenAt: nat, ss: seq<Sequence>)
    requires Reading(c, k, hist, oend, tokenAt, ss) && Acceptable(c, k, hist, oend)
    ensures LiteralField(c.src, tokenAt).Some? && MatchAt(c.src, tokenAt) - 2 <= k
    ensures Replay(hist, ss) + LiteralsAt(c.src, tokenAt) <= Output(hist, ParseBlock(c.src[..k]).value)
  {
    hide LiteralField, MatchField, ReadUpTo, OffsetAt, Replay, Output, ParseBlock, EncodeBlock, ValidBlock;
    Upcoming(c, k, hist, oend, tokenAt, ss);
    var (ll, at) := LiteralField(c.src, tokenAt).value;
    if at + ll < k {
      var (mc, end) := MatchField(c.src, tokenAt, at + ll + 2).value;
      BlockSequence(c.src, k, hist, Replay(hist, ss), ss, tokenAt, mc + MINMATCH, end);
      var s := Current(c.src, tokenAt, mc + MINMATCH);
      var longer := CopyMatch(Replay(hist, ss) + s.literals, s.offset, s.matchLength);
      hide CopyMatch;
      ReadIsPrefix(c.src[..k], hist, longer, end, ss + [s]);
      assert longer[..|Replay(hist, ss) + s.literals|] == Replay(hist, ss) + s.literals;
    }
  }

  /** Partial decoding that ends within or behind literals. */
  lemma PartialLast(c: Call, k: nat, hist: seq<byte>, d: seq<byte>, d': seq<byte>, tokenAt: nat, op: nat, ss: seq<Sequence>,
                    ll: nat, at: nat, n: nat)
    requires c.partial && AtToken(c, k, hist, d, tokenAt, op, ss)
    requires LiteralField(c.src, tokenAt) == Some((ll, at)) && |d'| == |d|
    requires n <= ll && at + n <= |c.src| && op + n <= |d| && (n == ll || at + n == |c.src| || op + n == |d|)
    requires op + n == |d| || at + n + 2 >= |c.src|
    requires d'[..op + n] == d[..op] + c.src[at..at + n]
    ensures Complete(c, k, hist, d', op + n)
  {
    hide LiteralField, MatchField, ReadUpTo, OffsetAt, Replay, Output, ParseBlock;
    if Acceptable(c, k, hist, |d|) {
      var all := Output(hist, ParseBlock(c.src[..k]).value);
      Upcoming(c, k, hist, |d|, tokenAt, ss);
      LiteralsShown(c, k, hist, |d|, tokenAt, ss);
      if c.dict + d[..op] == Replay(hist, ss) {
        PrefixOfLiterals(c.dict, d[..op], c.src, at, ll, n);
        assert c.dict + d'[..op + n] <= all;
      } else {
        assert n == 0;
        assert c.dict + d'[..op + n] == c.dict + d[..op];
      }
    }
  }

  lemma PrefixOfLiterals(dict: seq<byte>, x: seq<byte>, src: seq<byte>, at: nat, ll: nat, n: nat)
    requires n <= ll && at + ll <= |src|
    ensures dict + (x + src[at..at + n]) <= dict + x + src[at..at + ll]
  {
    assert src[at..at + n] == src[at..at + ll][..n];
  }
}
