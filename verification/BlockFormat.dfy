/** The LZ4 block format: what a block means and how it is laid out in bytes.

    A block is a list of sequences (literals, then a match copied from earlier
    output) followed by a final run of literals.  `Replay` gives its meaning one
    byte at a time; `EncodeBlock` and `ParseBlock` give its byte layout.  Every
    compressor and decoder of this project is specified by these functions.
 */
module BlockFormat {
  import opened Basics

  newtype byte = b: int | 0 <= b < 256

  const MINMATCH: nat := 4
  const LASTLITERALS: nat := 5
  const MFLIMIT: nat := 12
  const RUN_MASK: nat := 15
  const ML_MASK: nat := 15
  const DISTANCE_MAX: nat := 65535
  const WILDCOPYLENGTH: nat := 8

  datatype Sequence = Sequence(literals: seq<byte>, offset: nat, matchLength: nat)

  datatype Block = Block(sequences: seq<Sequence>, last: seq<byte>)

  function Last(s: seq<byte>, n: nat): (r: seq<byte>)
    requires n <= |s|
    ensures |r| == n
  {
    s[|s| - n..]
  }

  // ----- Meaning -----

  /** Appends `len` bytes, each equal to the byte `offset` places before it.  An
      offset that reaches no earlier byte is invalid; zeros stand for its bytes. */
  function CopyMatch(out: seq<byte>, offset: nat, len: nat): (r: seq<byte>)
    ensures |r| == |out| + len
    ensures r[..|out|] == out
  {
    if len == 0 then out
    else
      var r := CopyMatch(out, offset, len - 1);
      r + [if 1 <= offset <= |r| then r[|r| - offset] else 0]
  }

  /** The output after `ss`, starting from the history `hist` (included). */
  function Replay(hist: seq<byte>, ss: seq<Sequence>): (out: seq<byte>)
    ensures |hist| <= |out| && out[..|hist|] == hist
  {
    if ss == [] then hist
    else
      var s := ss[|ss| - 1];
      CopyMatch(Replay(hist, ss[..|ss| - 1]) + s.literals, s.offset, s.matchLength)
  }

  /** Every match is long enough and reaches back to existing output. */
  predicate ValidSequences(hist: seq<byte>, ss: seq<Sequence>) {
    ss == [] ||
    (var s := ss[|ss| - 1];
     && ValidSequences(hist, ss[..|ss| - 1])
     && MINMATCH <= s.matchLength
     && 1 <= s.offset <= DISTANCE_MAX
     && s.offset <= |Replay(hist, ss[..|ss| - 1])| + |s.literals|)
  }

  /** The bytes a block stands for, after the history `hist`. */
  function Content(hist: seq<byte>, b: Block): seq<byte> {
    Replay(hist, b.sequences)[|hist|..] + b.last
  }

  /** The end-of-block conditions: the last five bytes are literals and the last
      match starts at least twelve bytes before the end. */
  predicate EndRules(b: Block) {
    b.sequences != [] ==>
      && LASTLITERALS <= |b.last|
      && MFLIMIT <= b.sequences[|b.sequences| - 1].matchLength + |b.last|
  }

  /** A block a conformant decoder must accept. */
  predicate ValidBlock(hist: seq<byte>, b: Block) {
    ValidSequences(hist, b.sequences) && EndRules(b)
  }

  // ----- Byte layout -----

  /** The bytes that follow a length field of 15. */
  function LengthBytes(n: nat): (r: seq<byte>)
    ensures |r| == n / 255 + 1
  {
    if n < 255 then [n as byte] else [255] + LengthBytes(n - 255)
  }

  function LengthField(n: nat): (r: nat)
    ensures r <= 15
  {
    if n < 15 then n else 15
  }

  function Extension(n: nat): (r: seq<byte>)
    ensures |r| == if n < 15 then 0 else (n - 15) / 255 + 1
  {
    if n < 15 then [] else LengthBytes(n - 15)
  }

  predicate Encodable(s: Sequence) {
    MINMATCH <= s.matchLength && s.offset <= DISTANCE_MAX
  }

  function Token(litLength: nat, matchCode: nat): byte {
    (16 * LengthField(litLength) + LengthField(matchCode)) as byte
  }

  function OffsetBytes(offset: nat): (r: seq<byte>)
    requires offset <= DISTANCE_MAX
    ensures |r| == 2
  {
    [(offset % 256) as byte, (offset / 256) as byte]
  }

  function EncodeSequence(s: Sequence): seq<byte>
    requires Encodable(s)
  {
    [Token(|s.literals|, s.matchLength - MINMATCH)] + Extension(|s.literals|) + s.literals
    + OffsetBytes(s.offset) + Extension(s.matchLength - MINMATCH)
  }

  predicate AllEncodable(ss: seq<Sequence>) {
    forall i :: 0 <= i < |ss| ==> Encodable(ss[i])
  }

  function EncodeSequences(ss: seq<Sequence>): seq<byte>
    requires AllEncodable(ss)
  {
    if ss == [] then []
    else EncodeSequences(ss[..|ss| - 1]) + EncodeSequence(ss[|ss| - 1])
  }

  function EncodeLast(last: seq<byte>): seq<byte> {
    [Token(|last|, 0)] + Extension(|last|) + last
  }

  function EncodeBlock(b: Block): seq<byte>
    requires AllEncodable(b.sequences)
  {
    EncodeSequences(b.sequences) + EncodeLast(b.last)
  }

  /** The lengths of the format's own examples. */
  lemma DocumentedLengths()
    ensures LengthField(48) == LengthField(280) == 15 && Extension(15) == [0] && Extension(48) == [33] && Extension(280) == [255, 10]
  {
    assert LengthBytes(10) == [10];
  }

  /** A block byte by byte: one literal, then 18 bytes copied from 258 bytes before, then the
      last five literals.  Offsets are little-endian. */
  lemma DocumentedLayout(x: byte)
    ensures EncodeBlock(Block([Sequence([x], 258, 18)], [x, x, x, x, x])) == [0x1E, x, 2, 1, 0x50, x, x, x, x, x]
  {
    var s := Sequence([x], 258, 18);
    assert EncodeSequence(s) == [0x1E, x, 2, 1];
    assert [s][..0] == [] && EncodeSequences([s]) == EncodeSequences([]) + EncodeSequence(s);
  }

  // ----- Reading the layout back -----

  /** Value and size of the length bytes at the start of `bytes`. */
  function ReadLength(bytes: seq<byte>): (r: Option<(nat, nat)>)
    ensures r.Some? ==> 0 < r.value.1 <= |bytes|
  {
    if bytes == [] then None
    else if bytes[0] < 255 then Some((bytes[0] as nat, 1))
    else
      match ReadLength(bytes[1..])
      case None => None
      case Some((v, n)) => Some((255 + v, n + 1))
  }

  /** Value of a length whose token field is `field`, and the position after it. */
  function ReadField(field: nat, bytes: seq<byte>, at: nat): (r: Option<(nat, nat)>)
    requires at <= |bytes|
    ensures r.Some? ==> at <= r.value.1 <= |bytes|
  {
    if field < 15 then Some((field, at))
    else
      match ReadLength(bytes[at..])
      case None => None
      case Some((v, n)) => Some((15 + v, at + n))
  }

  /** Parses the first sequence of `bytes`: the sequence and its size. */
  function ParseSequence(bytes: seq<byte>): (r: Option<(Sequence, nat)>)
    ensures r.Some? ==> 0 < r.value.1 <= |bytes| && Encodable(r.value.0)
  {
    if bytes == [] then None
    else
      match ReadField(bytes[0] as nat / 16, bytes, 1)
      case None => None
      case Some((ll, at)) =>
        if |bytes| < at + ll + 2 then None
        else
          var offset := bytes[at + ll] as int + 256 * bytes[at + ll + 1] as int;
          match ReadField(bytes[0] as nat % 16, bytes, at + ll + 2)
          case None => None
          case Some((mc, end)) => Some((Sequence(bytes[at..at + ll], offset, mc + MINMATCH), end))
  }

  /** The final literals, when `bytes` is exactly one final run.  The low half of
      the token has no meaning there. */
  function ParseLast(bytes: seq<byte>): Option<seq<byte>> {
    if bytes == [] then None
    else
      match ReadField(bytes[0] as nat / 16, bytes, 1)
      case None => None
      case Some((ll, at)) => if at + ll == |bytes| then Some(bytes[at..]) else None
  }

  function ParseBlock(bytes: seq<byte>): (r: Option<Block>)
    ensures r.Some? ==> AllEncodable(r.value.sequences)
    decreases |bytes|
  {
    match ParseLast(bytes)
    case Some(last) => Some(Block([], last))
    case None =>
      match ParseSequence(bytes)
      case None => None
      case Some((s, n)) =>
        match ParseBlock(bytes[n..])
        case None => None
        case Some(b) => Some(Block([s] + b.sequences, b.last))
  }

  // ----- Properties of the meaning -----

  /** Each copied byte equals the byte `offset` places before it. */
  lemma {:induction false} CopyMatchAt(out: seq<byte>, offset: nat, len: nat, k: nat)
    requires 1 <= offset <= |out| && |out| <= k < |out| + len
    ensures CopyMatch(out, offset, len)[k] == CopyMatch(out, offset, len)[k - offset]
  {
    if k < |out| + len - 1 {
      CopyMatchAt(out, offset, len - 1, k);
    }
  }

  /** A copy of m + n bytes is a copy of m bytes followed by one of n. */
  lemma {:induction false} CopyMatchSplit(out: seq<byte>, offset: nat, m: nat, n: nat)
    ensures CopyMatch(out, offset, m + n) == CopyMatch(CopyMatch(out, offset, m), offset, n)
  {
    if n != 0 {
      CopyMatchSplit(out, offset, m, n - 1);
    }
  }

  /** Replaying a longer list continues the replay of its beginning. */
  lemma {:induction false} ReplayAppend(hist: seq<byte>, ss: seq<Sequence>, tt: seq<Sequence>)
    ensures Replay(hist, ss + tt) == Replay(Replay(hist, ss), tt)
  {
    hide CopyMatch;
    if tt == [] {
      assert ss + tt == ss;
    } else {
      ReplayAppend(hist, ss, tt[..|tt| - 1]);
      assert (ss + tt)[..|ss + tt| - 1] == ss + tt[..|tt| - 1];
    }
  }

  lemma {:induction false} ValidAppend(hist: seq<byte>, ss: seq<Sequence>, tt: seq<Sequence>)
    ensures ValidSequences(hist, ss + tt) <==> ValidSequences(hist, ss) && ValidSequences(Replay(hist, ss), tt)
  {
    hide Replay;
    if tt == [] {
      assert ss + tt == ss;
    } else {
      ValidAppend(hist, ss, tt[..|tt| - 1]);
      ReplayAppend(hist, ss, tt[..|tt| - 1]);
      assert (ss + tt)[..|ss + tt| - 1] == ss + tt[..|tt| - 1];
    }
  }

  lemma {:induction false} ValidIsEncodable(hist: seq<byte>, ss: seq<Sequence>)
    requires ValidSequences(hist, ss)
    ensures AllEncodable(ss)
  {
    if ss != [] {
      ValidIsEncodable(hist, ss[..|ss| - 1]);
      assert ss == ss[..|ss| - 1] + [ss[|ss| - 1]];
    }
  }

  // ----- Properties of the layout -----

  lemma {:induction false} ReadLengthBytes(n: nat, rest: seq<byte>)
    ensures ReadLength(LengthBytes(n) + rest) == Some((n, n / 255 + 1))
  {
    var bytes := LengthBytes(n) + rest;
    if 255 <= n {
      ReadLengthBytes(n - 255, rest);
      assert bytes[1..] == LengthBytes(n - 255) + rest;
    }
  }

  /** What `ReadLength` accepts is the canonical layout of the value it returns. */
  lemma {:induction false} ReadLengthCanonical(bytes: seq<byte>)
    requires ReadLength(bytes).Some?
    ensures var (v, n) := ReadLength(bytes).value; bytes[..n] == LengthBytes(v)
  {
    if bytes[0] == 255 {
      ReadLengthCanonical(bytes[1..]);
      var (v, n) := ReadLength(bytes).value;
      assert bytes[..n] == [bytes[0]] + bytes[1..][..n - 1];
    }
  }

  lemma ReadFieldOf(n: nat, pre: seq<byte>, rest: seq<byte>)
    ensures ReadField(LengthField(n), pre + Extension(n) + rest, |pre|)
         == Some((n, |pre| + |Extension(n)|))
  {
    var bytes := pre + Extension(n) + rest;
    assert bytes[|pre|..] == Extension(n) + rest;
    if 15 <= n {
      ReadLengthBytes(n - 15, rest);
    }
  }

  lemma OffsetRoundTrip(offset: nat)
    requires offset <= DISTANCE_MAX
    ensures OffsetBytes(offset)[0] as int + 256 * OffsetBytes(offset)[1] as int == offset
  {
  }

  lemma TokenFields(litLength: nat, matchCode: nat)
    ensures Token(litLength, matchCode) as int / 16 == LengthField(litLength)
    ensures Token(litLength, matchCode) as int % 16 == LengthField(matchCode)
  {
  }

  lemma Regroup(a: seq<byte>, b: seq<byte>, c: seq<byte>, d: seq<byte>, e: seq<byte>, f: seq<byte>)
    ensures a + b + c + d + e + f == a + b + (c + d + e + f)
    ensures (a + b + c + d + e + f)[|a| + |b|..|a| + |b| + |c|] == c
    ensures |d| == 2 ==> (a + b + c + d + e + f)[|a| + |b| + |c|] == d[0]
    ensures |d| == 2 ==> (a + b + c + d + e + f)[|a| + |b| + |c| + 1] == d[1]
  {
  }

  lemma ParseEncodedSequence(s: Sequence, rest: seq<byte>)
    requires Encodable(s)
    ensures ParseSequence(EncodeSequence(s) + rest) == Some((s, |EncodeSequence(s)|))
  {
    hide Extension, OffsetBytes, Token, LengthField, ReadField;
    var mc := s.matchLength - MINMATCH;
    var token := [Token(|s.literals|, mc)];
    var x, y, off := Extension(|s.literals|), Extension(mc), OffsetBytes(s.offset);
    Regroup(token, x, s.literals, off, y, rest);
    OffsetRoundTrip(s.offset);
    TokenFields(|s.literals|, mc);
    ReadFieldOf(|s.literals|, token, s.literals + off + y + rest);
    ReadFieldOf(mc, token + x + s.literals + off, rest);
  }

  /** A final run parses back whatever stands in the low half of its token. */
  lemma ParseEncodedLast(last: seq<byte>)
    ensures ParseLast(EncodeLast(last)) == Some(last)
  {
    ReadFieldOf(|last|, [Token(|last|, 0)], last);
    assert EncodeLast(last) == [Token(|last|, 0)] + Extension(|last|) + last;
  }

  /** A sequence that starts `bytes` is never mistaken for a final run. */
  lemma SequenceIsNotLast(s: Sequence, rest: seq<byte>)
    requires Encodable(s)
    ensures ParseLast(EncodeSequence(s) + rest) == None
  {
    var mc := s.matchLength - MINMATCH;
    var token := [Token(|s.literals|, mc)];
    var tail := s.literals + OffsetBytes(s.offset) + Extension(mc) + rest;
    ReadFieldOf(|s.literals|, token, tail);
    assert EncodeSequence(s) + rest == token + Extension(|s.literals|) + tail;
  }

  lemma EncodeSnoc(ss: seq<Sequence>, s: Sequence)
    requires AllEncodable(ss) && Encodable(s)
    ensures AllEncodable(ss + [s])
    ensures EncodeSequences(ss + [s]) == EncodeSequences(ss) + EncodeSequence(s)
  {
    assert (ss + [s])[..|ss|] == ss;
  }

  lemma {:induction false} EncodeAppend(ss: seq<Sequence>, tt: seq<Sequence>)
    requires AllEncodable(ss) && AllEncodable(tt)
    ensures AllEncodable(ss + tt)
    ensures EncodeSequences(ss + tt) == EncodeSequences(ss) + EncodeSequences(tt)
  {
    hide EncodeSequence;
    if tt == [] {
      assert ss + tt == ss;
    } else {
      hide EncodeSequences;
      var front, s := tt[..|tt| - 1], tt[|tt| - 1];
      assert tt == front + [s] && ss + tt == (ss + front) + [s];
      EncodeAppend(ss, front);
      EncodeSnoc(ss + front, s);
      EncodeSnoc(front, s);
    }
  }

  /** Sequences in front of anything that parses are parsed in order. */
  lemma {:induction false} ParseAfterSequences(ss: seq<Sequence>, rest: seq<byte>)
    requires AllEncodable(ss) && ParseBlock(rest).Some?
    ensures var b := ParseBlock(rest).value;
            ParseBlock(EncodeSequences(ss) + rest) == Some(Block(ss + b.sequences, b.last))
    decreases |ss|
  {
    hide EncodeSequence;
    hide ParseLast, ParseSequence;
    var b := ParseBlock(rest).value;
    if ss == [] {
      assert EncodeSequences(ss) + rest == rest;
      assert ss + b.sequences == b.sequences;
    } else {
      var front, s := ss[..|ss| - 1], ss[|ss| - 1];
      var mid := EncodeSequence(s) + rest;
      SequenceIsNotLast(s, rest);
      ParseEncodedSequence(s, rest);
      assert mid[|EncodeSequence(s)|..] == rest;
      assert ParseBlock(mid) == Some(Block([s] + b.sequences, b.last));
      ParseAfterSequences(front, mid);
      assert ss == front + [s];
      EncodeSnoc(front, s);
      assert EncodeSequences(ss) + rest == EncodeSequences(front) + mid;
      assert front + ([s] + b.sequences) == ss + b.sequences;
    }
  }

  /** Round trip of the layout: a block is recovered from its bytes. */
  lemma ParseEncodedBlock(b: Block)
    requires AllEncodable(b.sequences)
    ensures ParseBlock(EncodeBlock(b)) == Some(b)
  {
    ParseEncodedLast(b.last);
    ParseAfterSequences(b.sequences, EncodeLast(b.last));
    assert b.sequences + [] == b.sequences;
  }
}
