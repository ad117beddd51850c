/** What a decoder knows while it reads a block front to back.

    `hist` is the history the block may refer to and `out` the history followed by
    what has been decoded.  `ReadUpTo` ties the reading position to `ParseBlock`
    and the output to `Replay`.
 */
module DecoderSpec {
  import opened Basics
  import opened BlockFormat

  /** Every match is long enough and starts no earlier than the history. */
  predicate Reachable(hist: seq<byte>, ss: seq<Sequence>) {
    ss == [] ||
    (var s := ss[|ss| - 1];
     && Reachable(hist, ss[..|ss| - 1])
     && MINMATCH <= s.matchLength
     && s.offset <= |Replay(hist, ss[..|ss| - 1])| + |s.literals|)
  }

  function Prepend(ss: seq<Sequence>, ob: Option<Block>): Option<Block> {
    match ob
    case None => None
    case Some(b) => Some(Block(ss + b.sequences, b.last))
  }

  /** `src` is a block that a decoder must accept: it parses, and keeps the parsing
      restrictions. */
  ghost predicate Decodable(src: seq<byte>, hist: seq<byte>) {
    ParseBlock(src).Some? && ValidBlock(hist, ParseBlock(src).value)
  }

  /** History and content together. */
  function Output(hist: seq<byte>, b: Block): seq<byte> {
    Replay(hist, b.sequences) + b.last
  }

  /** The encoding of a valid block is decodable, and stands for its content. */
  lemma EncodedIsDecodable(hist: seq<byte>, b: Block)
    requires ValidBlock(hist, b) && AllEncodable(b.sequences)
    ensures Decodable(EncodeBlock(b), hist) && ParseBlock(EncodeBlock(b)) == Some(b)
    ensures Output(hist, b) == hist + Content(hist, b)
  {
    hide EncodeBlock, ParseBlock, Replay, ValidBlock;
    ParseEncodedBlock(b);
    assert Replay(hist, b.sequences) == hist + Replay(hist, b.sequences)[|hist|..];
  }

  lemma CopyMatchOfNone(out: seq<byte>, offset: nat)
    ensures CopyMatch(out, offset, 0) == out
  {
  }

  lemma CopyMatchNext(out: seq<byte>, offset: nat, n: nat)
    requires 1 <= offset <= |out|
    ensures var r := CopyMatch(out, offset, n); CopyMatch(out, offset, n + 1) == r + [r[|r| - offset]]
  {
  }

  /** `ss` has been read up to `ip`; replaying it gives `out`. */
  ghost predicate ReadUpTo(src: seq<byte>, hist: seq<byte>, out: seq<byte>, ip: nat, ss: seq<Sequence>) {
    && ip <= |src|
    && ParseBlock(src) == Prepend(ss, ParseBlock(src[ip..]))
    && Reachable(hist, ss) && Replay(hist, ss) == out
  }

  lemma ReadNothing(src: seq<byte>, hist: seq<byte>)
    ensures ReadUpTo(src, hist, hist, 0, [])
  {
    assert src[0..] == src;
    match ParseBlock(src)
    case None =>
    case Some(b) => assert [] + b.sequences == b.sequences;
  }

  // ----- Fields by position -----

  /** The literal length announced at `tokenAt`, and where the literals start. */
  function LiteralField(src: seq<byte>, tokenAt: nat): (r: Option<(nat, nat)>)
    requires tokenAt < |src|
    ensures r.Some? ==> tokenAt < r.value.1 <= |src|
  {
    ReadField(src[tokenAt] as nat / 16, src, tokenAt + 1)
  }

  function OffsetAt(src: seq<byte>, at: nat): (offset: nat)
    requires at + 2 <= |src|
    ensures offset <= DISTANCE_MAX
  {
    src[at] as nat + 256 * src[at + 1] as nat
  }

  /** The match length field of the token at `tokenAt`, read at `at`. */
  function MatchField(src: seq<byte>, tokenAt: nat, at: nat): (r: Option<(nat, nat)>)
    requires tokenAt < |src| && at <= |src|
    ensures r.Some? ==> at <= r.value.1 <= |src|
  {
    ReadField(src[tokenAt] as nat % 16, src, at)
  }

  lemma FieldShift(field: nat, src: seq<byte>, ip: nat, at: nat)
    requires ip <= at <= |src|
    ensures match ReadField(field, src, at)
            case None => ReadField(field, src[ip..], at - ip) == None
            case Some((v, end)) => ReadField(field, src[ip..], at - ip) == Some((v, end - ip))
  {
    assert src[ip..][at - ip..] == src[at..];
  }

  lemma {:induction false} LengthOfPrefix(x: seq<byte>, n: nat)
    requires n <= |x| && ReadLength(x[..n]).Some?
    ensures ReadLength(x) == ReadLength(x[..n])
  {
    if x[0] == 255 {
      assert x[..n][1..] == x[1..][..n - 1];
      LengthOfPrefix(x[1..], n - 1);
    }
  }

  /** A field that lies within a prefix is the same in the whole. */
  lemma FieldOfPrefix(field: nat, src: seq<byte>, k: nat, at: nat)
    requires at <= k <= |src| && ReadField(field, src[..k], at).Some?
    ensures ReadField(field, src, at) == ReadField(field, src[..k], at)
  {
    if field >= 15 {
      assert src[..k][at..] == src[at..][..k - at];
      LengthOfPrefix(src[at..], k - at);
    }
  }

  lemma LiteralShift(src: seq<byte>, tokenAt: nat)
    requires tokenAt < |src|
    ensures var rest := src[tokenAt..];
            match LiteralField(src, tokenAt)
            case None => ReadField(rest[0] as nat / 16, rest, 1) == None
            case Some((ll, at)) => ReadField(rest[0] as nat / 16, rest, 1) == Some((ll, at - tokenAt))
  {
    FieldShift(src[tokenAt] as nat / 16, src, tokenAt, tokenAt + 1);
  }

  /** The literals announced at `tokenAt` reach the end of `src`. */
  lemma LastAt(src: seq<byte>, tokenAt: nat, ll: nat, at: nat)
    requires tokenAt < |src| && LiteralField(src, tokenAt) == Some((ll, at)) && at + ll == |src|
    ensures ParseBlock(src[tokenAt..]) == Some(Block([], src[at..]))
  {
    hide ReadField;
    LiteralShift(src, tokenAt);
    assert src[tokenAt..][at - tokenAt..] == src[at..];
  }

  /** The sequence whose literal length and match length are announced at `tokenAt`. */
  function SequenceAt(src: seq<byte>, tokenAt: nat, ll: nat, at: nat, mc: nat): Sequence
    requires at + ll + 2 <= |src|
  {
    Sequence(src[at..at + ll], OffsetAt(src, at + ll), mc + MINMATCH)
  }

  lemma ParseSequenceAt(src: seq<byte>, tokenAt: nat, ll: nat, at: nat, mc: nat, end: nat)
    requires tokenAt < |src| && LiteralField(src, tokenAt) == Some((ll, at)) && at + ll + 2 <= |src|
    requires MatchField(src, tokenAt, at + ll + 2) == Some((mc, end))
    ensures ParseSequence(src[tokenAt..]) == Some((SequenceAt(src, tokenAt, ll, at, mc), end - tokenAt))
    ensures ParseLast(src[tokenAt..]) == None
  {
    hide ReadField;
    var rest := src[tokenAt..];
    LiteralShift(src, tokenAt);
    FieldShift(src[tokenAt] as nat % 16, src, tokenAt, at + ll + 2);
    assert rest[at - tokenAt..at - tokenAt + ll] == src[at..at + ll];
  }

  lemma ParseStep(bytes: seq<byte>, s: Sequence, n: nat)
    requires ParseLast(bytes) == None && ParseSequence(bytes) == Some((s, n))
    ensures ParseBlock(bytes) == Prepend([s], ParseBlock(bytes[n..]))
  {
    hide ParseSequence, ParseLast;
  }

  lemma ParseFromSequence(src: seq<byte>, tokenAt: nat, ll: nat, at: nat, mc: nat, end: nat)
    requires tokenAt < |src| && LiteralField(src, tokenAt) == Some((ll, at)) && at + ll + 2 <= |src|
    requires MatchField(src, tokenAt, at + ll + 2) == Some((mc, end))
    ensures ParseBlock(src[tokenAt..]) == Prepend([SequenceAt(src, tokenAt, ll, at, mc)], ParseBlock(src[end..]))
  {
    hide ParseBlock, ParseSequence, ParseLast, LiteralField, MatchField, SequenceAt;
    ParseSequenceAt(src, tokenAt, ll, at, mc, end);
    ParseStep(src[tokenAt..], SequenceAt(src, tokenAt, ll, at, mc), end - tokenAt);
    assert src[tokenAt..][end - tokenAt..] == src[end..];
  }

  /** A parse that succeeds finds its fields. */
  lemma ParseFindsFields(src: seq<byte>, tokenAt: nat)
    requires tokenAt <= |src| && ParseBlock(src[tokenAt..]).Some?
    ensures tokenAt < |src| && LiteralField(src, tokenAt).Some?
    ensures var (ll, at) := LiteralField(src, tokenAt).value;
            at + ll == |src| || (at + ll + 2 <= |src| && MatchField(src, tokenAt, at + ll + 2).Some?)
  {
    hide ReadField;
    var rest := src[tokenAt..];
    if tokenAt < |src| {
      LiteralShift(src, tokenAt);
      if LiteralField(src, tokenAt).Some? {
        var (ll, at) := LiteralField(src, tokenAt).value;
        if at + ll + 2 <= |src| {
          FieldShift(src[tokenAt] as nat % 16, src, tokenAt, at + ll + 2);
        }
      }
    }
  }

  // ----- Reading on -----

  lemma PrependTwice(ss: seq<Sequence>, s: Sequence, ob: Option<Block>)
    ensures Prepend(ss, Prepend([s], ob)) == Prepend(ss + [s], ob)
  {
    if ob.Some? {
      assert ss + ([s] + ob.value.sequences) == ss + [s] + ob.value.sequences;
    }
  }

  /** A whole sequence read: the parse grows. */
  lemma SequenceRead(src: seq<byte>, hist: seq<byte>, out: seq<byte>, tokenAt: nat, ss: seq<Sequence>,
                     ll: nat, at: nat, mc: nat, end: nat)
    requires tokenAt < |src| && ReadUpTo(src, hist, out, tokenAt, ss)
    requires LiteralField(src, tokenAt) == Some((ll, at)) && at + ll + 2 <= |src|
    requires MatchField(src, tokenAt, at + ll + 2) == Some((mc, end)) && OffsetAt(src, at + ll) <= |out| + ll
    ensures var s := SequenceAt(src, tokenAt, ll, at, mc);
            ReadUpTo(src, hist, CopyMatch(out + s.literals, s.offset, s.matchLength), end, ss + [s])
  {
    hide ParseBlock, CopyMatch, OffsetAt;
    var s := SequenceAt(src, tokenAt, ll, at, mc);
    ParseFromSequence(src, tokenAt, ll, at, mc, end);
    PrependTwice(ss, s, ParseBlock(src[end..]));
    hide MatchField, LiteralField;
    assert (ss + [s])[..|ss|] == ss;
  }

  /** The final literals read: the whole block is known. */
  lemma LastRead(src: seq<byte>, hist: seq<byte>, out: seq<byte>, tokenAt: nat, ss: seq<Sequence>, ll: nat, at: nat)
    requires tokenAt < |src| && ReadUpTo(src, hist, out, tokenAt, ss)
    requires LiteralField(src, tokenAt) == Some((ll, at)) && at + ll == |src|
    ensures ParseBlock(src) == Some(Block(ss, src[at..])) && Output(hist, Block(ss, src[at..])) == out + src[at..]
  {
    hide ParseBlock;
    LastAt(src, tokenAt, ll, at);
    assert ss + [] == ss;
  }

  // ----- What the end-of-block conditions give a decoder -----

  lemma {:induction false} LastTakesRoom(bytes: seq<byte>)
    requires ParseBlock(bytes).Some?
    ensures 1 + |ParseBlock(bytes).value.last| <= |bytes|
    decreases |bytes|
  {
    if ParseLast(bytes) == None {
      hide ParseSequence;
      LastTakesRoom(bytes[ParseSequence(bytes).value.1..]);
    }
  }

  lemma {:induction false} ReplayGrows(hist: seq<byte>, ss: seq<Sequence>, tt: seq<Sequence>)
    ensures |Replay(hist, ss)| <= |Replay(hist, ss + tt)|
    ensures Replay(hist, ss + tt)[..|Replay(hist, ss)|] == Replay(hist, ss)
    ensures tt != [] ==> |Replay(hist, ss)| + |tt[0].literals| + tt[|tt| - 1].matchLength <= |Replay(hist, ss + tt)|
  {
    ReplayAppend(hist, ss, tt);
    if |tt| == 1 {
      assert Replay(Replay(hist, ss), tt[..0]) == Replay(hist, ss);
    } else if |tt| > 1 {
      var front := tt[..|tt| - 1];
      ReplayGrows(hist, ss, front);
      ReplayAppend(hist, ss, front);
      assert front[0] == tt[0];
    }
  }

  /** What is read of a valid block is a prefix of its output. */
  lemma ReadIsPrefix(src: seq<byte>, hist: seq<byte>, out: seq<byte>, ip: nat, ss: seq<Sequence>)
    requires ReadUpTo(src, hist, out, ip, ss) && ParseBlock(src).Some?
    ensures out <= Output(hist, ParseBlock(src).value)
  {
    hide ParseBlock, Replay;
    var b := ParseBlock(src[ip..]).value;
    ReplayGrows(hist, ss, b.sequences);
  }

  /** The literals announced next, and the room the rest of a valid block needs. */
  lemma NextLiterals(src: seq<byte>, hist: seq<byte>, out: seq<byte>, tokenAt: nat, ss: seq<Sequence>)
    requires ReadUpTo(src, hist, out, tokenAt, ss) && Decodable(src, hist)
    ensures tokenAt < |src| && LiteralField(src, tokenAt).Some?
    ensures var (ll, at) := LiteralField(src, tokenAt).value;
            var total := |Output(hist, ParseBlock(src).value)|;
            && at + ll <= |src|
            && (at + ll == |src| ==> |out| + ll == total && out + src[at..] == Output(hist, ParseBlock(src).value))
            && (at + ll < |src| ==>
                  && at + ll + 2 <= |src| && MatchField(src, tokenAt, at + ll + 2).Some?
                  && MatchField(src, tokenAt, at + ll + 2).value.1 + 1 + LASTLITERALS <= |src|
                  && |out| + ll + MFLIMIT <= total
                  && |out| + ll + MatchField(src, tokenAt, at + ll + 2).value.0 + MINMATCH + LASTLITERALS <= total
                  && 1 <= OffsetAt(src, at + ll) <= |out| + ll)
  {
    hide ParseBlock, CopyMatch, OffsetAt, LiteralField, MatchField;
    ParseFindsFields(src, tokenAt);
    var (ll, at) := LiteralField(src, tokenAt).value;
    if at + ll == |src| {
      LastRead(src, hist, out, tokenAt, ss, ll, at);
    } else {
      NextMatch(src, hist, out, tokenAt, ss, ll, at);
    }
  }

  lemma NextMatch(src: seq<byte>, hist: seq<byte>, out: seq<byte>, tokenAt: nat, ss: seq<Sequence>, ll: nat, at: nat)
    requires ReadUpTo(src, hist, out, tokenAt, ss) && Decodable(src, hist) && tokenAt < |src|
    requires LiteralField(src, tokenAt) == Some((ll, at)) && at + ll + 2 <= |src|
    requires MatchField(src, tokenAt, at + ll + 2).Some?
    ensures var (mc, end) := MatchField(src, tokenAt, at + ll + 2).value;
            var total := |Output(hist, ParseBlock(src).value)|;
            && end + 1 + LASTLITERALS <= |src|
            && |out| + ll + MFLIMIT <= total
            && |out| + ll + mc + MINMATCH + LASTLITERALS <= total
            && 1 <= OffsetAt(src, at + ll) <= |out| + ll
  {
    hide ParseBlock, CopyMatch, OffsetAt, LiteralField, MatchField, Replay;
    var (mc, end) := MatchField(src, tokenAt, at + ll + 2).value;
    var s := SequenceAt(src, tokenAt, ll, at, mc);
    ParseFromSequence(src, tokenAt, ll, at, mc, end);
    var b := ParseBlock(src[end..]).value;
    LastTakesRoom(src[end..]);
    PrependTwice(ss, s, ParseBlock(src[end..]));
    assert ParseBlock(src).value == Block(ss + [s] + b.sequences, b.last);
    RoomAfter(hist, ss, s, b);
    assert |s.literals| == ll;
  }

  /** Room left in a valid block at one of its sequences. */
  lemma RoomAfter(hist: seq<byte>, ss: seq<Sequence>, s: Sequence, b: Block)
    requires ValidBlock(hist, Block(ss + [s] + b.sequences, b.last))
    ensures var out := Replay(hist, ss);
            var total := |Output(hist, Block(ss + [s] + b.sequences, b.last))|;
            && LASTLITERALS <= |b.last|
            && |out| + |s.literals| + MFLIMIT <= total
            && |out| + |s.literals| + s.matchLength + LASTLITERALS <= total
            && 1 <= s.offset <= |out| + |s.literals|
  {
    ValidAppend(hist, ss + [s], b.sequences);
    assert (ss + [s])[..|ss|] == ss;
    assert ValidSequences(hist, ss + [s]);
    ReplayGrows(hist, ss, [s]);
    ReplayGrows(hist, ss + [s], b.sequences);
    var all := ss + [s] + b.sequences;
    assert all[|all| - 1] == if b.sequences == [] then s else b.sequences[|b.sequences| - 1];
  }
}
