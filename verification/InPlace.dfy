/** In-place decompression: LZ4_decompress_unsafe_generic with its source at the end of
    the buffer it decodes into.

    All copies have their exact length.  The block takes no more bytes than its content
    and the buffer has LZ4_DECOMPRESS_INPLACE_BUFFER_SIZE bytes behind the prefix; then
    the write position never passes the read position, so unread input is intact.
 */
module InPlace {
  import opened Basics
  import opened BlockFormat
  import opened SourceParse
  import opened DecoderSpec
  import Decoder

  /** LZ4_DECOMPRESS_INPLACE_MARGIN. */
  function Margin(size: nat): nat {
    size / 256 + 32
  }

  /** A call: where the output starts, the sizes of content and block, and the memory. */
  datatype Layout = Layout(start: nat, decompressedSize: nat, istart: nat, end: nat)

  predicate LayoutOk(l: Layout) {
    && l.start <= l.istart <= l.end
    && l.end - l.istart <= l.decompressedSize
    && l.start + l.decompressedSize + Margin(l.decompressedSize) <= l.end
  }

  /** Wherever a block of at most `d` bytes has been decoded up to, the input that remains
      exceeds the output that remains by at most a 256th of `d` and 16 bytes: what was
      decoded so far has at least the size of the excess. */
  lemma MarginHolds(d: nat, out: seq<byte>, b: Block)
    requires ValidSequences(out, b.sequences) && AllEncodable(b.sequences)
    requires |EncodeBlock(b)| <= d && |Content(out, b)| <= d
    ensures |EncodeBlock(b)| - |Content(out, b)| <= d / 256 + 16
  {
    hide EncodeBlock, Content;
    BlockSize(out, b);
    Excess(|EncodeBlock(b)| - |Content(out, b)|, |Content(out, b)|, d);
  }

  lemma Excess(e: int, y: nat, d: nat)
    requires e <= d - y && e <= y / 255 + 16
    ensures e <= d / 256 + 16
  {
    assert 255 * e <= y + 4080;
  }

  /** A block that remains to be decoded into `out` still fits behind it. */
  lemma StaysBehind(l: Layout, dict: seq<byte>, out: seq<byte>, b: Block)
    requires LayoutOk(l) && ValidBlock(out, b) && AllEncodable(b.sequences) && |dict| + l.start <= |out|
    requires |Output(out, b)| == |dict| + l.start + l.decompressedSize && |EncodeBlock(b)| <= l.end - l.istart
    ensures |out| - |dict| + |EncodeBlock(b)| + 16 <= l.end
  {
    hide EncodeBlock;
    assert |Content(out, b)| == |Output(out, b)| - |out|;
    MarginHolds(l.decompressedSize, out, b);
  }

  // ----- Layout of what remains -----

  lemma EncodeFirst(b: Block)
    requires AllEncodable(b.sequences) && b.sequences != []
    ensures EncodeBlock(b) == EncodeSequence(b.sequences[0]) + EncodeBlock(Block(b.sequences[1..], b.last))
  {
    hide EncodeSequence, EncodeLast;
    var s, rest := b.sequences[0], b.sequences[1..];
    assert b.sequences == [s] + rest && [] + [s] == [s];
    EncodeSnoc([], s);
    EmptySequences();
    EncodeAppend([s], rest);
    hide EncodeSequences;
    assert EncodeSequences([s]) == EncodeSequence(s);
  }

  lemma EmptySequences()
    ensures EncodeSequences([]) == []
  {
  }

  /** A field that is read is laid out canonically. */
  lemma FieldLayout(field: nat, bytes: seq<byte>, at: nat)
    requires at <= |bytes| && field <= 15 && ReadField(field, bytes, at).Some?
    ensures var (v, end) := ReadField(field, bytes, at).value;
            field == LengthField(v) && bytes[at..] == Extension(v) + bytes[end..] && end == at + |Extension(v)|
  {
    hide ReadLength, LengthBytes;
    if field == 15 {
      ReadLengthCanonical(bytes[at..]);
      var (v, n) := ReadLength(bytes[at..]).value;
      CutOff(bytes, at, n);
    } else {
      NothingInFront(bytes[at..]);
    }
  }

  lemma CutOff(s: seq<byte>, at: nat, n: nat)
    requires at + n <= |s|
    ensures s[at..] == s[at..][..n] + s[at + n..]
  {
  }

  lemma NothingInFront(s: seq<byte>)
    ensures [] + s == s
  {
  }

  lemma TokenOf(token: byte, n: nat, code: nat)
    requires token as nat / 16 == LengthField(n) && token as nat % 16 == LengthField(code)
    ensures token == Token(n, code)
  {
  }

  /** The final run, whatever the low half of its token holds. */
  lemma LastLayout(bytes: seq<byte>)
    requires ParseLast(bytes).Some?
    ensures var last := ParseLast(bytes).value;
            && bytes != [] && bytes == [Token(|last|, bytes[0] as nat % 16)] + (Extension(|last|) + last)
            && |bytes| == |EncodeLast(last)|
  {
    hide Token, Extension, ReadField, LengthField;
    FieldLayout(bytes[0] as nat / 16, bytes, 1);
    var last := ParseLast(bytes).value;
    LowHalf(bytes[0]);
    TokenOf(bytes[0], |last|, bytes[0] as nat % 16);
    assert bytes == [bytes[0]] + bytes[1..];
  }

  lemma LowHalf(token: byte)
    ensures LengthField(token as nat % 16) == token as nat % 16
  {
  }

  /** The first sequence, and what follows it. */
  lemma SequenceLayout(bytes: seq<byte>)
    requires ParseSequence(bytes).Some?
    ensures var (s, n) := ParseSequence(bytes).value;
            && bytes == [Token(|s.literals|, s.matchLength - MINMATCH)] + (Extension(|s.literals|) + (s.literals
                 + (OffsetBytes(s.offset) + (Extension(s.matchLength - MINMATCH) + bytes[n..]))))
            && n == |EncodeSequence(s)|
  {
    hide Token, Extension, ReadField, LengthField, OffsetBytes, EncodeSequence;
    var (s, n) := ParseSequence(bytes).value;
    var (ll, at) := ReadField(bytes[0] as nat / 16, bytes, 1).value;
    FieldLayout(bytes[0] as nat / 16, bytes, 1);
    FieldLayout(bytes[0] as nat % 16, bytes, at + ll + 2);
    TokenOf(bytes[0], ll, s.matchLength - MINMATCH);
    PartsJoin(bytes, Token(ll, s.matchLength - MINMATCH), Extension(ll), ll, s.offset, Extension(s.matchLength - MINMATCH), n);
    SequenceLength(s);
  }

  lemma SequenceLength(s: Sequence)
    requires Encodable(s)
    ensures |EncodeSequence(s)| == 3 + |Extension(|s.literals|)| + |s.literals| + |Extension(s.matchLength - MINMATCH)|
  {
  }

  lemma PartsJoin(bytes: seq<byte>, token: byte, x: seq<byte>, ll: nat, offset: nat, y: seq<byte>, n: nat)
    requires 3 + |x| + ll + |y| == n <= |bytes| && bytes[0] == token && bytes[1..] == x + bytes[1 + |x|..]
    requires var at := 1 + |x| + ll; offset == bytes[at] as nat + 256 * bytes[at + 1] as nat && bytes[at + 2..] == y + bytes[n..]
    ensures bytes == [token] + (x + (bytes[1 + |x|..1 + |x| + ll] + (OffsetBytes(offset) + (y + bytes[n..]))))
  {
    hide OffsetBytes;
    var at := 1 + |x| + ll;
    OffsetBytesAt(bytes, at);
    SplitAt(bytes, 1 + |x|, at);
    SplitAt(bytes, 0, 1);
  }

  lemma SplitAt(bytes: seq<byte>, a: nat, b: nat)
    requires a <= b <= |bytes|
    ensures bytes[a..] == bytes[a..b] + bytes[b..]
    ensures a == 0 ==> bytes[a..] == bytes && (b == 1 ==> bytes[a..b] == [bytes[0]])
  {
  }

  lemma OffsetBytesAt(bytes: seq<byte>, at: nat)
    requires at + 2 <= |bytes|
    ensures bytes[at..] == OffsetBytes(bytes[at] as int + 256 * bytes[at + 1] as int) + bytes[at + 2..]
  {
  }

  /** A block takes as many bytes as its canonical layout. */
  lemma {:induction false} ParsedSize(bytes: seq<byte>)
    requires ParseBlock(bytes).Some?
    ensures |bytes| == |EncodeBlock(ParseBlock(bytes).value)|
    decreases |bytes|
  {
    hide ParseSequence, ParseLast, EncodeLast, EncodeSequence, Token, Extension;
    if ParseLast(bytes).Some? {
      LastLayout(bytes);
      EmptySequences();
    } else {
      var (s, n) := ParseSequence(bytes).value;
      SequenceLayout(bytes);
      ParsedSize(bytes[n..]);
      var b := ParseBlock(bytes).value;
      assert b.sequences[1..] == ParseBlock(bytes[n..]).value.sequences;
      EncodeFirst(b);
    }
  }

  // ----- Reading -----

  /** read_long_length_no_check. */
  method ReadLongLength(mem: array<byte>, ip0: nat, ghost n: nat, ghost rest: seq<byte>) returns (length: nat, ip: nat)
    requires ip0 <= mem.Length && mem[ip0..] == LengthBytes(n) + rest
    ensures length == n && ip <= mem.Length && ip == ip0 + |LengthBytes(n)| && mem[ip..] == rest
  {
    ip, length := ip0, 0;
    ghost var left := n;
    while true
      invariant ip0 <= ip < mem.Length && length + left == n
      invariant mem[ip..] == LengthBytes(left) + rest && ip + |LengthBytes(left)| == ip0 + |LengthBytes(n)|
      decreases left
    {
      ghost var unread := mem[ip..];
      var b := mem[ip];
      assert b == unread[0];
      ip := ip + 1;
      assert mem[ip..] == unread[1..];
      length := length + b as nat;
      if b != 255 { break; }
      assert unread[1..] == LengthBytes(left - 255) + rest;
      left := left - 255;
    }
  }

  /** A length whose token field was `field`. */
  method ReadLengthField(mem: array<byte>, ip0: nat, field: nat, ghost n: nat, ghost rest: seq<byte>)
    returns (length: nat, ip: nat)
    requires ip0 <= mem.Length && field == LengthField(n) && mem[ip0..] == Extension(n) + rest
    ensures length == n && ip0 <= ip <= mem.Length && mem[ip..] == rest
  {
    length, ip := field, ip0;
    if field == 15 {
      var more;
      more, ip := ReadLongLength(mem, ip, n - 15, rest);
      length := length + more;
    }
  }

  // ----- Writing -----

  /** memmove of the literals: the two areas may overlap. */
  method MoveLiterals(mem: array<byte>, op: nat, ip: nat, n: nat)
    requires op <= ip && ip + n <= mem.Length
    modifies mem
    ensures mem[..op + n] == old(mem[..op] + mem[ip..ip + n])
    ensures mem[ip + n..] == old(mem[ip + n..])
  {
    forall i | 0 <= i < n { mem[op + i] := mem[ip + i]; }
  }

  /** The byte-by-byte copy of a match. */
  method CopyBack(mem: array<byte>, ghost dict: seq<byte>, op: nat, offset: nat, n: nat)
    requires 1 <= offset <= op && op + n <= mem.Length
    modifies mem
    ensures dict + mem[..op + n] == CopyMatch(dict + old(mem[..op]), offset, n)
    ensures mem[op + n..] == old(mem[op + n..])
  {
    hide CopyMatch;
    CopyMatchOfNone(dict + mem[..op], offset);
    for u := 0 to n
      invariant dict + mem[..op + u] == CopyMatch(dict + old(mem[..op]), offset, u)
      invariant forall j :: op + u <= j < mem.Length ==> mem[j] == old(mem[j])
    {
      ghost var m := mem[..];
      mem[op + u] := mem[op - offset + u];
      assert mem[..] == m[op + u := m[op + u - offset]];
      OneMoreByte(dict, m, op + u, offset);
      CopyMatchNext(dict + old(mem[..op]), offset, u);
    }
  }

  lemma OneMoreByte(dict: seq<byte>, m: seq<byte>, k: nat, offset: nat)
    requires 1 <= offset <= k < |m|
    ensures var r := dict + m[..k]; dict + m[k := m[k - offset]][..k + 1] == r + [r[|r| - offset]]
  {
  }

  /** The part of a match that lies in the external dictionary. */
  method CopyDict(mem: array<byte>, dict: seq<byte>, op: nat, offset: nat, n: nat)
    requires op <= offset <= op + |dict| && n <= offset - op && op + n <= mem.Length
    modifies mem
    ensures dict + mem[..op + n] == CopyMatch(dict + old(mem[..op]), offset, n)
    ensures mem[op + n..] == old(mem[op + n..])
  {
    Decoder.DictSlice(dict, mem[..op], offset, n);
    var from := |dict| - (offset - op);
    forall i | 0 <= i < n { mem[op + i] := dict[from + i]; }
    assert mem[..op + n] == old(mem[..op]) + dict[from..][..n];
  }

  method CopyMatchExactly(mem: array<byte>, dict: seq<byte>, op: nat, offset: nat, ml: nat)
    requires 1 <= offset <= op + |dict| && op + ml <= mem.Length
    modifies mem
    ensures dict + mem[..op + ml] == CopyMatch(dict + old(mem[..op]), offset, ml)
    ensures mem[op + ml..] == old(mem[op + ml..])
  {
    hide CopyMatch;
    if offset > op {
      var extml := offset - op;
      if extml > ml {
        CopyDict(mem, dict, op, offset, ml);
      } else {
        CopyMatchSplit(dict + mem[..op], offset, extml, ml - extml);
        CopyDict(mem, dict, op, offset, extml);
        assert old(mem[op + extml..])[ml - extml..] == old(mem[op + ml..]);
        assert mem[op + extml..][ml - extml..] == mem[op + ml..];
        CopyBack(mem, dict, op + extml, offset, ml - extml);
      }
    } else {
      CopyBack(mem, dict, op, offset, ml);
    }
  }

  // ----- Decoding -----

  /** Decoding one sequence: what the rest of the block is then. */
  lemma Advance(out: seq<byte>, b: Block)
    requires ValidBlock(out, b) && b.sequences != []
    ensures var s, rest := b.sequences[0], Block(b.sequences[1..], b.last);
            var out' := CopyMatch(out + s.literals, s.offset, s.matchLength);
            && MINMATCH <= s.matchLength && 1 <= s.offset <= DISTANCE_MAX && s.offset <= |out| + |s.literals|
            && ValidBlock(out', rest) && Output(out', rest) == Output(out, b)
            && |out| + |s.literals| + MFLIMIT <= |Output(out, b)|
            && |out'| + LASTLITERALS <= |Output(out, b)|
  {
    hide CopyMatch;
    var s, rest := b.sequences[0], Block(b.sequences[1..], b.last);
    OneReplayed(out, s);
    assert b.sequences == [s] + rest.sequences;
    hide Replay;
    ValidAppend(out, [s], rest.sequences);
    ReplayAppend(out, [s], rest.sequences);
    assert [] + [s] + rest.sequences == b.sequences;
    RoomAfter(out, [], s, rest);
  }

  lemma OneReplayed(out: seq<byte>, s: Sequence)
    ensures Replay(out, [s]) == CopyMatch(out + s.literals, s.offset, s.matchLength)
    ensures ValidSequences(out, []) && Replay(out, []) == out
  {
    assert [s][..0] == [];
  }

  /** `b` remains to be decoded: its bytes are unread, and its content completes `all`. */
  ghost predicate Decoding(l: Layout, dict: seq<byte>, m: seq<byte>, ip: nat, op: nat, b: Block, all: seq<byte>) {
    && LayoutOk(l) && |m| == l.end && l.istart <= ip <= l.end && l.start <= op <= |m|
    && ParseBlock(m[ip..]) == Some(b)
    && ValidBlock(dict + m[..op], b) && Output(dict + m[..op], b) == all
    && |all| == |dict| + l.start + l.decompressedSize
  }

  lemma NeverCatchesUp(l: Layout, dict: seq<byte>, m: seq<byte>, ip: nat, op: nat, b: Block, all: seq<byte>)
    requires Decoding(l, dict, m, ip, op, b, all)
    ensures op + 16 <= ip && op <= l.start + l.decompressedSize
  {
    hide EncodeBlock, ParseBlock, ValidBlock, Replay;
    assert |m[ip..]| == l.end - ip;
    ParsedSize(m[ip..]);
    StaysBehind(l, dict, dict + m[..op], b);
  }

  lemma Unread(m: seq<byte>, ip: nat, a: seq<byte>, b: seq<byte>)
    requires ip <= |m| && m[ip..] == a + b
    ensures ip + |a| <= |m| && m[ip..ip + |a|] == a && m[ip + |a|..] == b
  {
    assert m[ip..ip + |a|] == m[ip..][..|a|];
    assert m[ip + |a|..] == m[ip..][|a|..];
  }

  /** The token and the literal length: the low half is left for later. */
  method TokenAndLength(mem: array<byte>, ip0: nat, ghost n: nat, ghost mc: nat, ghost rest: seq<byte>)
    returns (field: nat, ll: nat, ip: nat)
    requires ip0 <= mem.Length && mem[ip0..] == [Token(n, mc)] + (Extension(n) + rest)
    ensures field == LengthField(mc) && ll == n && ip0 < ip <= mem.Length && mem[ip..] == rest
  {
    hide Token, Extension, LengthField;
    Unread(mem[..], ip0, [Token(n, mc)], Extension(n) + rest);
    var token := mem[ip0];
    assert token == mem[..][ip0..ip0 + 1][0];
    TokenFields(n, mc);
    field := token as nat % 16;
    ll, ip := ReadLengthField(mem, ip0 + 1, token as nat / 16, n, rest);
  }

  /** Token and literals: `ok` unless the literals pass the end of the output. */
  method TokenAndLiterals(mem: array<byte>, oend: nat, ip0: nat, op0: nat, ghost literals: seq<byte>, ghost mc: nat,
                          ghost rest: seq<byte>)
    returns (ok: bool, field: nat, ip: nat, op: nat)
    requires op0 <= ip0 <= mem.Length && op0 <= oend
    requires mem[ip0..] == [Token(|literals|, mc)] + (Extension(|literals|) + (literals + rest))
    modifies mem
    ensures ok == (op0 + |literals| <= oend)
    ensures ok ==>
      && field == LengthField(mc) && ip0 < ip <= mem.Length && op == op0 + |literals|
      && mem[..op] == old(mem[..op0]) + literals && mem[ip..] == rest
  {
    hide Token, Extension, LengthField;
    var ll;
    field, ll, ip := TokenAndLength(mem, ip0, |literals|, mc, literals + rest);
    op := op0;
    if oend - op < ll { return false, field, ip, op; }
    Unread(mem[..], ip, literals, rest);
    assert mem[ip..ip + ll] == mem[..][ip..ip + ll];
    assert mem[ip + ll..] == mem[..][ip + ll..];
    MoveLiterals(mem, op, ip, ll);
    ok, ip, op := true, ip + ll, op + ll;
  }

  method OffsetAndLength(mem: array<byte>, field: nat, ip0: nat, ghost offset: nat, ghost mc: nat, ghost rest: seq<byte>)
    returns (off: nat, ml: nat, ip: nat)
    requires ip0 <= mem.Length && field == LengthField(mc) && offset <= DISTANCE_MAX
    requires mem[ip0..] == OffsetBytes(offset) + (Extension(mc) + rest)
    ensures off == offset && ml == mc + MINMATCH && ip0 < ip <= mem.Length && mem[ip..] == rest
  {
    hide Extension, LengthField, OffsetBytes;
    Unread(mem[..], ip0, OffsetBytes(offset), Extension(mc) + rest);
    OffsetRoundTrip(offset);
    assert mem[ip0] == mem[..][ip0..ip0 + 2][0] && mem[ip0 + 1] == mem[..][ip0..ip0 + 2][1];
    off := mem[ip0] as nat + 256 * mem[ip0 + 1] as nat;
    ml, ip := ReadLengthField(mem, ip0 + 2, field, mc, rest);
    ml := ml + MINMATCH;
  }

  /** Offset, match length and match: `ok` unless the match passes the end of the output,
      leaves no room for the last literals or reaches outside the history. */
  method Match(mem: array<byte>, dict: seq<byte>, oend: nat, field: nat, ip0: nat, op0: nat, ghost offset: nat, ghost mc: nat,
               ghost rest: seq<byte>)
    returns (ok: bool, ip: nat, op: nat)
    requires ip0 <= mem.Length && op0 <= oend && field == LengthField(mc) && 1 <= offset <= DISTANCE_MAX
    requires mem[ip0..] == OffsetBytes(offset) + (Extension(mc) + rest)
    requires op0 + mc + MINMATCH + |rest| <= mem.Length
    modifies mem
    ensures ok == (op0 + mc + MINMATCH + LASTLITERALS <= oend && offset <= op0 + |dict|)
    ensures ok ==>
      && ip0 < ip <= mem.Length && op == op0 + mc + MINMATCH && mem[ip..] == rest
      && dict + mem[..op] == CopyMatch(dict + old(mem[..op0]), offset, mc + MINMATCH)
  {
    hide Extension, LengthField, OffsetBytes, CopyMatch;
    var off, ml;
    off, ml, ip := OffsetAndLength(mem, field, ip0, offset, mc, rest);
    op := op0;
    if oend - op < ml { return false, ip, op; }
    if off > op + |dict| { return false, ip, op; }
    assert |mem[ip..]| == |rest|;
    ghost var behind := mem[op + ml..];
    assert behind[ip - (op + ml)..] == mem[ip..];
    CopyMatchExactly(mem, dict, op, off, ml);
    assert mem[op + ml..][ip - (op + ml)..] == mem[ip..];
    op := op + ml;
    ok := oend - op >= LASTLITERALS;
  }

  function NextLiterals(b: Block): seq<byte> {
    if b.sequences == [] then b.last else b.sequences[0].literals
  }

  /** What the low half of the next token announces: nothing behind the last sequence. */
  function NextCode(bytes: seq<byte>, b: Block): nat
    requires bytes != [] && AllEncodable(b.sequences)
  {
    if b.sequences == [] then bytes[0] as nat % 16 else b.sequences[0].matchLength - MINMATCH
  }

  /** The bytes behind the first sequence. */
  function Tail(bytes: seq<byte>): seq<byte> {
    match ParseSequence(bytes)
    case None => []
    case Some((_, n)) => bytes[n..]
  }

  function Rest(b: Block): Block {
    if b.sequences == [] then b else Block(b.sequences[1..], b.last)
  }

  /** The bytes behind the next literals. */
  function BehindLiterals(bytes: seq<byte>, b: Block): seq<byte>
    requires bytes != [] && AllEncodable(b.sequences)
  {
    if b.sequences == [] then []
    else OffsetBytes(b.sequences[0].offset) + (Extension(NextCode(bytes, b)) + Tail(bytes))
  }

  lemma BlockLayout(bytes: seq<byte>, b: Block)
    requires ParseBlock(bytes) == Some(b)
    ensures bytes != [] && AllEncodable(b.sequences)
    ensures bytes == [Token(|NextLiterals(b)|, NextCode(bytes, b))]
      + (Extension(|NextLiterals(b)|) + (NextLiterals(b) + BehindLiterals(bytes, b)))
    ensures b.sequences != [] ==> ParseBlock(Tail(bytes)) == Some(Rest(b))
  {
    hide Token, Extension, ParseSequence, ParseLast, OffsetBytes;
    if ParseLast(bytes).Some? {
      LastLayout(bytes);
      assert b.last + [] == b.last;
    } else {
      SequenceLayout(bytes);
      var (s, n) := ParseSequence(bytes).value;
      assert b.sequences[1..] == ParseBlock(bytes[n..]).value.sequences;
    }
  }

  /** Where the literals end. */
  lemma LiteralsEnd(out: seq<byte>, b: Block)
    requires ValidBlock(out, b)
    ensures if b.sequences == [] then out + NextLiterals(b) == Output(out, b)
            else |out| + |NextLiterals(b)| + MFLIMIT <= |Output(out, b)|
  {
    if b.sequences != [] {
      Advance(out, b);
    }
  }

  /** Why the match of the next sequence is accepted and leaves the rest of the block intact. */
  lemma SequenceNext(l: Layout, dict: seq<byte>, out: seq<byte>, bytes: seq<byte>, b: Block)
    requires LayoutOk(l) && ValidBlock(out, b) && ParseBlock(bytes) == Some(b) && |dict| + l.start <= |out|
    requires |Output(out, b)| == |dict| + l.start + l.decompressedSize && |bytes| <= l.end - l.istart
    requires b.sequences != [] && bytes != []
    ensures var s := b.sequences[0];
            var out' := CopyMatch(out + s.literals, s.offset, s.matchLength);
            && NextCode(bytes, b) == s.matchLength - MINMATCH && NextLiterals(b) == s.literals
            && 1 <= s.offset <= DISTANCE_MAX && s.offset <= |out| + |s.literals|
            && |out'| + LASTLITERALS <= |Output(out, b)| && |out'| - |dict| + |Tail(bytes)| + 16 <= l.end
            && ValidBlock(out', Rest(b)) && Output(out', Rest(b)) == Output(out, b)
            && BehindLiterals(bytes, b) == OffsetBytes(s.offset) + (Extension(NextCode(bytes, b)) + Tail(bytes))
  {
    hide EncodeBlock, ParseBlock, ValidBlock, CopyMatch, Extension, OffsetBytes, Token, Replay, Output;
    Advance(out, b);
    BlockLayout(bytes, b);
    var s := b.sequences[0];
    ParsedSize(Tail(bytes));
    TailIsShorter(bytes);
    StaysBehind(l, dict, CopyMatch(out + s.literals, s.offset, s.matchLength), Rest(b));
  }

  lemma TailIsShorter(bytes: seq<byte>)
    ensures |Tail(bytes)| <= |bytes|
  {
  }

  /** One round of the main loop; `done` behind the final literals. */
  method DecodeSequence(l: Layout, dict: seq<byte>, mem: array<byte>, ip0: nat, op0: nat, ghost b: Block, ghost all: seq<byte>)
    returns (done: bool, ip: nat, op: nat, ghost rest: Block)
    requires Decoding(l, dict, mem[..], ip0, op0, b, all)
    modifies mem
    ensures done ==> ip == l.end && op == l.start + l.decompressedSize && dict + mem[..op] == all
    ensures !done ==> ip0 < ip && Decoding(l, dict, mem[..], ip, op, rest, all)
  {
    hide ParseBlock, Token, Extension, OffsetBytes, CopyMatch, ValidBlock, Output, AllEncodable, Tail;
    var oend := l.start + l.decompressedSize;
    rest := Rest(b);
    ghost var out, bytes := dict + mem[..op0], mem[ip0..];
    assert mem[..][ip0..] == mem[ip0..] && mem[..][..op0] == mem[..op0];
    NeverCatchesUp(l, dict, mem[..], ip0, op0, b, all);
    LiteralsEnd(out, b);
    BlockLayout(bytes, b);
    var ok, field;
    ok, field, ip, op := TokenAndLiterals(mem, oend, ip0, op0, NextLiterals(b), NextCode(bytes, b), BehindLiterals(bytes, b));
    if !ok { assert false; }
    assert dict + mem[..op] == out + NextLiterals(b);
    if oend - op < MFLIMIT {
      if op != oend { assert false; }
      return true, ip, op, rest;
    }
    SequenceNext(l, dict, out, bytes, b);
    done := false;
    ghost var s := b.sequences[0];
    ok, ip, op := Match(mem, dict, oend, field, ip, op, s.offset, NextCode(bytes, b), Tail(bytes));
    if !ok { assert false; }
    assert mem[..][ip..] == mem[ip..] && mem[..][..op] == mem[..op];
  }

  /** LZ4_decompress_unsafe_generic on a block at the end of the buffer it decodes into:
      the whole content is decoded and the whole block is read, although reading and
      writing share the memory. */
  method DecompressInPlace(l: Layout, dict: seq<byte>, mem: array<byte>, ghost b: Block) returns (r: int)
    requires LayoutOk(l) && mem.Length == l.end
    requires var hist := dict + mem[..l.start];
             && Decodable(mem[l.istart..], hist) && b == ParseBlock(mem[l.istart..]).value
             && |Content(hist, b)| == l.decompressedSize
    modifies mem
    ensures r == l.end - l.istart
    ensures mem[..l.start] == old(mem[..l.start])
    ensures mem[l.start..l.start + l.decompressedSize] == old(Content(dict + mem[..l.start], b))
  {
    hide ParseBlock, ValidBlock, Decoding, Replay;
    ghost var hist := dict + mem[..l.start];
    ghost var all := Output(hist, b);
    var ip, op, done := l.istart, l.start, false;
    ghost var rest := b;
    Beginning(l, dict, mem[..], b);
    while !done
      invariant ip <= l.end
      invariant !done ==> Decoding(l, dict, mem[..], ip, op, rest, all)
      invariant done ==> ip == l.end && op == l.start + l.decompressedSize && dict + mem[..op] == all
      decreases !done, l.end - ip
    {
      done, ip, op, rest := DecodeSequence(l, dict, mem, ip, op, rest, all);
      Bounds(l, dict, mem[..], ip, op, rest, all, done);
    }
    assert all[..|hist|] == hist;
    r := ip - l.istart;
    ContentWritten(dict, old(mem[..l.start]), mem[..], l.start, op, all);
    assert all[|hist|..] == Content(hist, b);
  }

  lemma Beginning(l: Layout, dict: seq<byte>, m: seq<byte>, b: Block)
    requires LayoutOk(l) && |m| == l.end && ParseBlock(m[l.istart..]) == Some(b)
    requires ValidBlock(dict + m[..l.start], b) && |Content(dict + m[..l.start], b)| == l.decompressedSize
    ensures Decoding(l, dict, m, l.istart, l.start, b, Output(dict + m[..l.start], b))
  {
  }

  lemma Bounds(l: Layout, dict: seq<byte>, m: seq<byte>, ip: nat, op: nat, b: Block, all: seq<byte>, done: bool)
    requires !done ==> Decoding(l, dict, m, ip, op, b, all)
    ensures !done ==> ip <= l.end
  {
  }

  lemma ContentWritten(dict: seq<byte>, x: seq<byte>, m: seq<byte>, start: nat, op: nat, all: seq<byte>)
    requires start <= op <= |m| && dict + m[..op] == all && |x| == start && dict + x <= all
    ensures m[..start] == x && m[start..op] == all[|dict + x|..]
  {
    assert m[..start] == all[|dict|..][..start] == x;
  }
}
