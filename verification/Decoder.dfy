/** LZ4_decompress_generic as a state machine over its labels.

    `dst` is the memory from lowPrefix to oend: the prefix in front of `start`, then
    the output area.  The fast loop runs while at least 64 bytes of the area are
    left and hands over to the main loop in the middle of a sequence.  Every step
    keeps `DecoderState.At`.
 */
module Decoder {
  import opened Basics
  import opened BlockFormat
  import opened SourceParse
  import opened DecoderSpec
  import opened DecoderState
  import opened OverlapCopy
  import Emitter

  const FASTLOOP_SAFE_DISTANCE: nat := 64

  // ----- Reading lengths -----

  /** `r` behind `n` length bytes of sum `v`. */
  function Behind(v: nat, n: nat, r: Option<(nat, nat)>): Option<(nat, nat)> {
    match r
    case None => None
    case Some((w, m)) => Some((v + w, n + m))
  }

  /** read_variable_length: fails exactly when the length does not end by `ilimit`. */
  method ReadVariableLength(src: seq<byte>, ip0: nat, ilimit: int, initialCheck: bool)
    returns (ok: bool, length: nat, ip: nat)
    requires ip0 <= |src| && ilimit < |src| && (initialCheck || ip0 < |src|)
    ensures ok ==> ReadLength(src[ip0..]) == Some((length, ip - ip0)) && ip0 < ip <= ilimit
    ensures !ok ==> ReadLength(src[ip0..]) == None || ip0 + ReadLength(src[ip0..]).value.1 > ilimit
  {
    ip, length := ip0, 0;
    if initialCheck && ip >= ilimit { return false, length, ip; }
    while true
      invariant ip0 <= ip < |src|
      invariant ReadLength(src[ip0..]) == Behind(length, ip - ip0, ReadLength(src[ip..]))
      decreases |src| - ip
    {
      var s := src[ip];
      assert src[ip..][1..] == src[ip + 1..];
      ip := ip + 1;
      length := length + s as nat;
      if ip > ilimit { return false, length, ip; }
      if s != 255 { break; }
    }
    ok := true;
  }

  /** The literal length at `tokenAt`; a failure means the literals end outside `src`. */
  method ReadLiteralLength(src: seq<byte>, tokenAt: nat) returns (ok: bool, length: nat, ip: nat)
    requires tokenAt < |src|
    ensures ok ==> LiteralField(src, tokenAt) == Some((length, ip))
    ensures !ok ==> LiteralField(src, tokenAt) == None || MatchAt(src, tokenAt) > |src| + 2
  {
    ok, length, ip := true, src[tokenAt] as nat / 16, tokenAt + 1;
    if length == RUN_MASK {
      var addl;
      ok, addl, ip := ReadVariableLength(src, ip, |src| - RUN_MASK, true);
      length := length + addl;
    }
  }

  /** The match length whose code is at `ip0`; a failure means it ends closer than four
      bytes to the end of `src`. */
  method ReadMatchLength(src: seq<byte>, tokenAt: nat, ip0: nat) returns (ok: bool, length: nat, ip: nat)
    requires tokenAt < |src| && ip0 < |src|
    ensures ok ==> MINMATCH <= length && ip < |src| && MatchField(src, tokenAt, ip0) == Some((length - MINMATCH, ip))
    ensures !ok ==> MatchField(src, tokenAt, ip0) == None
                    || MatchField(src, tokenAt, ip0).value.1 + LASTLITERALS - 1 > |src|
  {
    ok, length, ip := true, src[tokenAt] as nat % 16, ip0;
    if length == ML_MASK {
      var addl;
      ok, addl, ip := ReadVariableLength(src, ip, |src| - LASTLITERALS + 1, false);
      length := length + addl;
    }
    length := length + MINMATCH;
  }

  // ----- Copying literals -----

  /** memcpy of 16 bytes on behalf of `n` literals. */
  method Copy16(dst: array<byte>, op: nat, src: seq<byte>, ip: nat, n: nat)
    requires n <= 16 && op + 16 <= dst.Length && ip + 16 <= |src|
    modifies dst
    ensures dst[..op + n] == old(dst[..op]) + src[ip..ip + n]
  {
    forall i | 0 <= i < 16 { dst[op + i] := src[ip + i]; }
  }

  /** LZ4_wildCopy32 of `n` literals. */
  method WildCopyLiterals(dst: array<byte>, op: nat, src: seq<byte>, ip: nat, n: nat)
    requires op + n + 32 <= dst.Length && ip + n + 32 <= |src|
    modifies dst
    ensures dst[..op + n] == old(dst[..op]) + src[ip..ip + n]
  {
    var d, s, e := op, ip, op + n;
    while true
      invariant op <= d <= e && s == ip + (d - op) && (op < d ==> d < e)
      invariant dst[..op] == old(dst[..op])
      invariant forall i :: op <= i < d ==> dst[i] == src[ip + (i - op)]
      decreases e + 32 - d
    {
      forall i | 0 <= i < 16 { dst[d + i] := src[s + i]; }
      forall i | 16 <= i < 32 { dst[d + i] := src[s + i]; }
      d, s := d + 32, s + 32;
      if d >= e { break; }
    }
  }

  /** memmove of exactly `n` literals. */
  method CopyExactly(dst: array<byte>, op: nat, src: seq<byte>, ip: nat, n: nat)
    requires op + n <= dst.Length && ip + n <= |src|
    modifies dst
    ensures dst[..op + n] == old(dst[..op]) + src[ip..ip + n]
  {
    forall i | 0 <= i < n { dst[op + i] := src[ip + i]; }
  }

  // ----- Copying matches -----

  /** A copy that does not reach its own output is a slice. */
  lemma {:induction false} CopyOfEarlier(out: seq<byte>, offset: nat, len: nat)
    requires len <= offset <= |out|
    ensures CopyMatch(out, offset, len) == out + out[|out| - offset..][..len]
  {
    if len != 0 {
      CopyOfEarlier(out, offset, len - 1);
      var x := out[|out| - offset..];
      assert x[..len] == x[..len - 1] + [x[len - 1]];
    }
  }

  lemma DictSlice(dict: seq<byte>, x: seq<byte>, offset: nat, len: nat)
    requires |x| <= offset <= |x| + |dict| && len <= offset - |x|
    ensures CopyMatch(dict + x, offset, len) == dict + (x + dict[|dict| - (offset - |x|)..][..len])
  {
    CopyOfEarlier(dict + x, offset, len);
    var a := |dict| - (offset - |x|);
    assert (dict + x)[a..][..len] == dict[a..][..len];
  }

  /** A match that starts in the external dictionary, and may go on into the prefix. */
  method CopyFromDict(dst: array<byte>, dict: seq<byte>, op: nat, offset: nat, length: nat)
    requires op < offset <= op + |dict| && op + length <= dst.Length
    modifies dst
    ensures dst[..op] == old(dst[..op])
    ensures dict + dst[..op + length] == CopyMatch(dict + old(dst[..op]), offset, length)
  {
    hide CopyMatch;
    var copySize := offset - op;
    if length <= copySize {
      DictSlice(dict, dst[..op], offset, length);
      CopyExactly(dst, op, dict[|dict| - copySize..], 0, length);
      assert dst[..op] == dst[..op + length][..op];
    } else {
      var restSize := length - copySize;
      DictSlice(dict, dst[..op], offset, copySize);
      CopyMatchSplit(dict + dst[..op], offset, copySize, restSize);
      CopyExactly(dst, op, dict[|dict| - copySize..], 0, copySize);
      ghost var mid := dst[..offset];
      assert mid[..op] == old(dst[..op]);
      if restSize > offset {
        CopyBytes(dst, offset, offset, offset, offset + restSize);
      } else {
        Stride(dst, offset, offset, restSize);
      }
      assert Copied(dst[..], offset, offset, restSize);
      CopiedIsCopyMatch(dict, dst[..], offset, offset, restSize);
      assert dst[..op] == dst[..offset][..op];
    }
  }

  /** The tail of the output area in partial decoding: exactly `n` bytes.  For the
      invalid offset 0 the bytes found there stay. */
  method CopyPartialMatch(dst: array<byte>, dict: seq<byte>, op: nat, offset: nat, n: nat)
    requires offset <= op && op + n <= dst.Length
    modifies dst
    ensures dst[..op] == old(dst[..op])
    ensures offset != 0 ==> dict + dst[..op + n] == CopyMatch(dict + old(dst[..op]), offset, n)
  {
    hide CopyMatch;
    if n > offset {
      if offset == 0 {
        for i := 0 to n
          invariant dst[..op] == old(dst[..op])
        {
          dst[op + i] := dst[op + i];
        }
      } else {
        CopyBytes(dst, op, op, offset, op + n);
      }
    } else {
      Stride(dst, op, offset, n);
    }
    if offset != 0 {
      assert Copied(dst[..], op, offset, n);
      CopiedIsCopyMatch(dict, dst[..], op, offset, n);
    }
  }

  // ----- The fast loop -----

  /** Token and literals of the fast loop. */
  method FastLiterals(c: Call, ghost k: nat, ghost hist: seq<byte>, dst: array<byte>, tokenAt: nat, op: nat,
                      ghost ss: seq<Sequence>)
    returns (s: State)
    requires AtToken(c, k, hist, dst[..], tokenAt, op, ss) && op + FASTLOOP_SAFE_DISTANCE <= dst.Length
    modifies dst
    ensures s.pc.Literals? || s.pc.MatchCode? || s.pc.Error?
    ensures op <= s.op <= dst.Length && (!s.pc.Error? ==> tokenAt < s.ip)
    ensures dst[..op] == old(dst[..op]) && At(c, k, hist, dst[..], s, ss)
  {
    hide LiteralField, Acceptable, Meant, Shown, OffsetAt, ReadUpTo;
    var iend, oend := |c.src|, dst.Length;
    var ip, length := tokenAt + 1, c.src[tokenAt] as nat / 16;
    LiteralNibble(c.src, tokenAt);
    ghost var before := dst[..];
    if length == RUN_MASK {
      var ok;
      ok, length, ip := ReadLiteralLength(c.src, tokenAt);
      if !ok {
        LiteralError(c, k, hist, oend, tokenAt, ss);
        return State(Error, ip, op);
      }
      if op + length > oend - 32 || ip + length > iend - 32 { return State(Literals(tokenAt, length), ip, op); }
      WildCopyLiterals(dst, op, c.src, ip, length);
    } else {
      if ip > iend - 17 { return State(Literals(tokenAt, length), ip, op); }
      Copy16(dst, op, c.src, ip, length);
    }
    s := ReadOffset(c, k, hist, before, dst, tokenAt, op, ss, length, ip);
  }

  lemma LiteralNibble(src: seq<byte>, tokenAt: nat)
    requires tokenAt < |src|
    ensures var n := src[tokenAt] as nat / 16; n <= 15 && (n < 15 ==> LiteralField(src, tokenAt) == Some((n, tokenAt + 1)))
  {
  }

  /** Behind copied literals: the offset. */
  method ReadOffset(c: Call, ghost k: nat, ghost hist: seq<byte>, ghost before: seq<byte>, dst: array<byte>, tokenAt: nat,
                    op: nat, ghost ss: seq<Sequence>, length: nat, ip: nat)
    returns (s: State)
    requires AtToken(c, k, hist, before, tokenAt, op, ss) && |before| == dst.Length
    requires LiteralField(c.src, tokenAt) == Some((length, ip)) && ip + length + 2 < |c.src|
    requires op + length < dst.Length && (!c.partial ==> op + length + MFLIMIT <= dst.Length)
    requires dst[..op + length] == before[..op] + c.src[ip..ip + length]
    ensures s == State(MatchCode(tokenAt, OffsetAt(c.src, ip + length)), ip + length + 2, op + length)
    ensures dst[..op] == before[..op] && At(c, k, hist, dst[..], s, ss)
  {
    hide LiteralField, Acceptable, Reading;
    var offset := c.src[ip + length] as nat + 256 * c.src[ip + length + 1] as nat;
    s := State(MatchCode(tokenAt, offset), ip + length + 2, op + length);
    assert dst[..op] == dst[..op + length][..op];
    assert c.dict + (before[..op] + c.src[ip..ip + length]) == (c.dict + before[..op]) + c.src[ip..ip + length];
  }

  /** checkOffset: only a history of less than 64 KB can be missed by an offset. */
  predicate OutsideBuffers(c: Call, op: nat, offset: nat) {
    |c.dict| < 65536 && offset > op + |c.dict|
  }

  /** The result of a match copied in full. */
  lemma Copied1(c: Call, k: nat, hist: seq<byte>, d: seq<byte>, d': seq<byte>, s: State, ss: seq<Sequence>)
    requires k <= |c.src| && s.pc.MatchCopy? && At(c, k, hist, d, s, ss)
    requires |d'| == |d| && s.op + s.pc.length <= |d| && s.pc.offset <= |c.dict| + s.op
    requires c.dict + d'[..s.op + s.pc.length] == CopyMatch(c.dict + d[..s.op], s.pc.offset, s.pc.length)
    ensures At(c, k, hist, d', State(Token, s.ip, s.op + s.pc.length), ss + [Current(c.src, s.pc.tokenAt, s.pc.length)])
  {
    hide LiteralField, MatchField, Acceptable, CopyMatch;
    MatchDone(c, k, hist, d, d', s.op, s.pc.length, ss, s.pc.tokenAt, s.pc.offset, s.pc.length, s.ip);
  }

  /** Match length and match of the fast loop. */
  method FastMatch(c: Call, ghost k: nat, ghost hist: seq<byte>, dst: array<byte>, s0: State, ghost ss: seq<Sequence>)
    returns (s: State, ghost ss': seq<Sequence>)
    requires k <= |c.src| && s0.pc.MatchCode? && At(c, k, hist, dst[..], s0, ss)
    requires c.prefix64k ==> 65535 <= s0.op
    modifies dst
    ensures s.pc.Token? || s.pc.MatchCopy? || s.pc.Error?
    ensures s.pc.Token? ==> s.op + FASTLOOP_SAFE_DISTANCE <= dst.Length
    ensures s0.op <= s.op && (!s.pc.Error? ==> s0.ip <= s.ip)
    ensures dst[..s0.op] == old(dst[..s0.op]) && At(c, k, hist, dst[..], s, ss')
  {
    hide LiteralField, MatchField, Acceptable, Reading, OffsetAt, CopyMatch;
    var MatchCode(tokenAt, offset) := s0.pc;
    var op := s0.op;
    ss' := ss;
    var ok, length, ip := ReadMatchLength(c.src, tokenAt, s0.ip);
    if !ok || OutsideBuffers(c, op, offset) {
      MatchError(c, k, hist, dst[..], op, ss, tokenAt, offset);
      return State(Error, ip, op), ss;
    }
    s := State(MatchCopy(tokenAt, offset, length), ip, op);
    if op + length >= dst.Length - FASTLOOP_SAFE_DISTANCE { return; }
    OffsetReaches(c, k, hist, dst[..], op, ss, tokenAt, offset);
    ghost var before := dst[..];
    if offset >= 8 && length < ML_MASK + MINMATCH && (c.prefix64k || offset <= op) {
      Copy18(dst, op, offset, length);
      CopiedIsCopyMatch(c.dict, dst[..], op, offset, length);
    } else if offset > op {
      CopyFromDict(dst, c.dict, op, offset, length);
    } else {
      CopyMatchFast(dst, op, offset, length);
      CopiedIsCopyMatch(c.dict, dst[..], op, offset, length);
    }
    Copied1(c, k, hist, before, dst[..], s, ss);
    s := State(Token, ip, op + length);
    ss' := ss + [Current(c.src, tokenAt, length)];
  }

  lemma OffsetReaches(c: Call, k: nat, hist: seq<byte>, d: seq<byte>, op: nat, ss: seq<Sequence>, tokenAt: nat, offset: nat)
    requires AfterLiterals(c, k, hist, d, op, ss, tokenAt, offset) && !OutsideBuffers(c, op, offset)
    ensures offset <= op + |c.dict| && offset <= DISTANCE_MAX
  {
  }

  // ----- The main loop -----

  /** Token of the main loop, with the shortcut for short literals and short matches. */
  method SafeToken(c: Call, ghost k: nat, ghost hist: seq<byte>, dst: array<byte>, tokenAt: nat, op: nat,
                   ghost ss: seq<Sequence>)
    returns (s: State, ghost ss': seq<Sequence>)
    requires AtToken(c, k, hist, dst[..], tokenAt, op, ss) && (c.prefix64k ==> 65535 <= op)
    modifies dst
    ensures !s.pc.Finished? && op <= s.op && (!s.pc.Error? ==> tokenAt < s.ip)
    ensures dst[..op] == old(dst[..op]) && At(c, k, hist, dst[..], s, ss')
  {
    hide LiteralField, Acceptable, Meant, Shown, OffsetAt, ReadUpTo;
    ss' := ss;
    var ip, length := tokenAt + 1, c.src[tokenAt] as nat / 16;
    LiteralNibble(c.src, tokenAt);
    if length != RUN_MASK && ip < |c.src| - 16 && op <= dst.Length - 32 {
      ghost var before := dst[..];
      Copy16(dst, op, c.src, ip, length);
      s := ReadOffset(c, k, hist, before, dst, tokenAt, op, ss, length, ip);
      s, ss' := Shortcut(c, k, hist, dst, op, s, ss);
    } else {
      var ok;
      ok, length, ip := ReadLiteralLength(c.src, tokenAt);
      if !ok {
        LiteralError(c, k, hist, dst.Length, tokenAt, ss);
        return State(Error, ip, op), ss;
      }
      s := State(Literals(tokenAt, length), ip, op);
    }
  }

  /** The second stage of the shortcut: a match of at most 18 bytes that does not
      overlap itself within eight. */
  method Shortcut(c: Call, ghost k: nat, ghost hist: seq<byte>, dst: array<byte>, ghost op0: nat, s0: State,
                  ghost ss: seq<Sequence>)
    returns (s: State, ghost ss': seq<Sequence>)
    requires k <= |c.src| && s0.pc.MatchCode? && At(c, k, hist, dst[..], s0, ss)
    requires op0 <= s0.op && s0.op + 18 <= dst.Length && (c.prefix64k ==> 65535 <= s0.op)
    modifies dst
    ensures s.pc.Token? || s.pc.MatchCode?
    ensures s0.op <= s.op && s0.ip <= s.ip
    ensures dst[..op0] == old(dst[..op0]) && At(c, k, hist, dst[..], s, ss')
  {
    hide LiteralField, Acceptable, Meant, Reading, OffsetAt, ReadUpTo, CopyMatch;
    s, ss' := s0, ss;
    var MatchCode(tokenAt, offset) := s0.pc;
    var length := c.src[tokenAt] as nat % 16 + MINMATCH;
    if length != ML_MASK + MINMATCH && offset >= 8 && (c.prefix64k || offset <= s0.op) {
      OffsetInRange(c, k, hist, dst[..], s0.op, ss, tokenAt, offset);
      ghost var before := dst[..];
      ghost var copy := State(MatchCopy(tokenAt, offset, length), s0.ip, s0.op);
      Copy18(dst, s0.op, offset, length);
      CopiedIsCopyMatch(c.dict, dst[..], s0.op, offset, length);
      Copied1(c, k, hist, before, dst[..], copy, ss);
      s := State(Token, s0.ip, s0.op + length);
      ss' := ss + [Current(c.src, tokenAt, length)];
      assert dst[..op0] == dst[..s0.op][..op0] == before[..op0];
    }
  }

  lemma OffsetInRange(c: Call, k: nat, hist: seq<byte>, d: seq<byte>, op: nat, ss: seq<Sequence>, tokenAt: nat, offset: nat)
    requires AfterLiterals(c, k, hist, d, op, ss, tokenAt, offset)
    ensures tokenAt < |c.src| && offset <= DISTANCE_MAX
  {
  }

  /** Literals of the main loop.  Close to an end of the input or of the area they are
      the last ones, unless decoding is partial. */
  method SafeLiterals(c: Call, ghost k: nat, ghost hist: seq<byte>, dst: array<byte>, s0: State, ghost ss: seq<Sequence>)
    returns (s: State)
    requires k <= |c.src| && (c.partial || k == |c.src|) && s0.pc.Literals? && At(c, k, hist, dst[..], s0, ss)
    modifies dst
    ensures s.pc.MatchCode? || s.pc.Finished? || s.pc.Error?
    ensures s0.op <= s.op && (s.pc.MatchCode? ==> s0.ip < s.ip)
    ensures dst[..s0.op] == old(dst[..s0.op]) && At(c, k, hist, dst[..], s, ss)
  {
    hide LiteralField, Acceptable, Meant, Reading, Shown, OffsetAt, ReadUpTo, Complete;
    var Literals(tokenAt, length) := s0.pc;
    var iend, oend := |c.src|, dst.Length;
    var ip, op := s0.ip, s0.op;
    var cpy := op + length;
    ghost var before := dst[..];
    if cpy > oend - MFLIMIT || ip + length > iend - (2 + 1 + LASTLITERALS) {
      if c.partial {
        if ip + length > iend {
          length := iend - ip;
          cpy := op + length;
        }
        if cpy > oend {
          cpy := oend;
          length := oend - op;
        }
      } else if ip + length != iend || cpy > oend {
        LastError(c, k, hist, dst[..], tokenAt, op, ss, length, ip);
        return State(Error, ip, op);
      }
      CopyExactly(dst, op, c.src, ip, length);
      assert dst[..op] == dst[..op + length][..op];
      if !c.partial || cpy == oend || ip + length >= iend - 2 {
        if c.partial {
          PartialLast(c, k, hist, before, dst[..], tokenAt, op, ss, s0.pc.length, ip, length);
        } else {
          assert c.src[ip..ip + length] == c.src[ip..];
          LastDone(c, k, hist, before, dst[..], tokenAt, op, ss, length, ip);
        }
        return State(Finished, ip + length, op + length);
      }
    } else {
      Emitter.WildCopy8(dst, op, c.src, ip, cpy);
    }
    s := ReadOffset(c, k, hist, before, dst, tokenAt, op, ss, length, ip);
  }

  method SafeMatchCode(c: Call, ghost k: nat, ghost hist: seq<byte>, dst: array<byte>, s0: State, ghost ss: seq<Sequence>)
    returns (s: State)
    requires k <= |c.src| && s0.pc.MatchCode? && At(c, k, hist, dst[..], s0, ss)
    ensures s.pc.MatchCopy? || s.pc.Error?
    ensures s0.op == s.op && (s.pc.MatchCopy? ==> s0.ip <= s.ip)
    ensures At(c, k, hist, dst[..], s, ss)
  {
    hide LiteralField, MatchField, Acceptable, Reading, OffsetAt;
    var MatchCode(tokenAt, offset) := s0.pc;
    OffsetInRange(c, k, hist, dst[..], s0.op, ss, tokenAt, offset);
    var ok, length, ip := ReadMatchLength(c.src, tokenAt, s0.ip);
    if !ok {
      MatchError(c, k, hist, dst[..], s0.op, ss, tokenAt, offset);
      return State(Error, ip, s0.op);
    }
    s := State(MatchCopy(tokenAt, offset, length), ip, s0.op);
  }

  /** The bytes of a match, `n` of them; full decoding fails when they leave no room for
      the last literals. */
  method CopyMatchBytes(c: Call, dst: array<byte>, op: nat, offset: nat, length: nat) returns (ok: bool, n: nat)
    requires op < dst.Length && (!c.partial ==> op + MFLIMIT <= dst.Length)
    requires offset <= op + |c.dict| && MINMATCH <= length
    modifies dst
    ensures !ok ==> !c.partial && op + length + LASTLITERALS > dst.Length
    ensures ok ==> op + n <= dst.Length && (n == length || (c.partial && n < length && op + n == dst.Length))
    ensures ok && (offset != 0 || !c.partial) ==>
              c.dict + dst[..op + n] == CopyMatch(c.dict + old(dst[..op]), offset, n)
    ensures dst[..op] == old(dst[..op])
  {
    hide CopyMatch;
    var oend := dst.Length;
    ok, n := true, length;
    if offset > op {
      if op + length > oend - LASTLITERALS {
        if !c.partial { return false, n; }
        n := Min(length, oend - op);
      }
      CopyFromDict(dst, c.dict, op, offset, n);
    } else if c.partial && op + length > oend - MATCH_SAFEGUARD_DISTANCE {
      n := Min(length, oend - op);
      CopyPartialMatch(dst, c.dict, op, offset, n);
    } else {
      ok := CopyMatchSafely(dst, op, offset, length);
      if ok {
        CopiedIsCopyMatch(c.dict, dst[..], op, offset, length);
      }
    }
  }

  /** Match of the main loop. */
  method SafeMatchCopy(c: Call, ghost k: nat, ghost hist: seq<byte>, dst: array<byte>, s0: State, ghost ss: seq<Sequence>)
    returns (s: State, ghost ss': seq<Sequence>)
    requires k <= |c.src| && s0.pc.MatchCopy? && At(c, k, hist, dst[..], s0, ss)
    modifies dst
    ensures s.pc.Token? || s.pc.Finished? || s.pc.Error?
    ensures s0.op <= s.op && (s.pc.Token? ==> s0.ip == s.ip)
    ensures dst[..s0.op] == old(dst[..s0.op]) && At(c, k, hist, dst[..], s, ss')
  {
    hide LiteralField, MatchField, Acceptable, Meant, Reading, OffsetAt, CopyMatch, Complete;
    var MatchCopy(tokenAt, offset, length) := s0.pc;
    var op, oend := s0.op, dst.Length;
    ghost var before := dst[..];
    ss' := ss + [Current(c.src, tokenAt, length)];
    if OutsideBuffers(c, op, offset) {
      MatchError(c, k, hist, dst[..], op, ss, tokenAt, offset);
      return State(Error, s0.ip, op), ss;
    }
    OffsetReaches(c, k, hist, dst[..], op, ss, tokenAt, offset);
    var ok, n := CopyMatchBytes(c, dst, op, offset, length);
    if !ok {
      MatchError(c, k, hist, before, op, ss, tokenAt, offset);
      return State(Error, s0.ip, op), ss;
    }
    MatchDone(c, k, hist, before, dst[..], op, n, ss, tokenAt, offset, length, s0.ip);
    s := State(Token, s0.ip, op + n);
    if offset <= op && c.partial && op + n == oend {
      AreaFull(c, k, hist, dst[..], s0.ip, ss');
      s := State(Finished, s0.ip, op + n);
    }
  }

  // ----- The decoder -----

  /** How far a state is from reading the next byte of input. */
  function Rank(pc: Pc): nat {
    match pc
    case MatchCode(_, _) => 3
    case MatchCopy(_, _, _) => 2
    case Token => 1
    case _ => 0
  }

  method FastLoop(c: Call, ghost k: nat, ghost hist: seq<byte>, dst: array<byte>, start: nat)
    returns (s: State, ghost ss: seq<Sequence>)
    requires start + FASTLOOP_SAFE_DISTANCE <= dst.Length && (c.prefix64k ==> 65535 <= start)
    requires AtToken(c, k, hist, dst[..], 0, start, [])
    modifies dst
    ensures s.pc.Literals? || s.pc.MatchCopy? || s.pc.Error?
    ensures start <= s.op && dst[..start] == old(dst[..start]) && At(c, k, hist, dst[..], s, ss)
  {
    hide LiteralField, MatchField, AtToken, AfterLiterals, Acceptable;
    s, ss := State(Token, 0, start), [];
    TokenInside(c, k, hist, dst[..], 0, start, ss);
    while true
      invariant s.pc.Token? && k <= |c.src| && start <= s.op && s.op + FASTLOOP_SAFE_DISTANCE <= dst.Length
      invariant dst[..start] == old(dst[..start]) && At(c, k, hist, dst[..], s, ss)
      decreases |c.src| - s.ip
    {
      TokenInside(c, k, hist, dst[..], s.ip, s.op, ss);
      ghost var op0, front0 := s.op, dst[..s.op];
      assert front0[..start] == dst[..start];
      s := FastLiterals(c, k, hist, dst, s.ip, s.op, ss);
      assert dst[..op0] == front0 && dst[..start] == dst[..op0][..start];
      if !s.pc.MatchCode? { return; }
      ghost var op1, front1 := s.op, dst[..s.op];
      assert front1[..start] == dst[..start];
      s, ss := FastMatch(c, k, hist, dst, s, ss);
      assert dst[..op1] == front1 && dst[..start] == dst[..op1][..start];
      if !s.pc.Token? { return; }
    }
  }

  lemma TokenInside(c: Call, k: nat, hist: seq<byte>, d: seq<byte>, ip: nat, op: nat, ss: seq<Sequence>)
    requires AtToken(c, k, hist, d, ip, op, ss)
    ensures k <= |c.src| && ip < |c.src| && op <= |d|
  {
  }

  method SafeStep(c: Call, ghost k: nat, ghost hist: seq<byte>, dst: array<byte>, s0: State, ghost ss: seq<Sequence>)
    returns (s: State, ghost ss': seq<Sequence>)
    requires k <= |c.src| && (c.partial || k == |c.src|) && (c.prefix64k ==> 65535 <= s0.op)
    requires At(c, k, hist, dst[..], s0, ss) && !s0.pc.Finished? && !s0.pc.Error?
    modifies dst
    ensures s.pc.Finished? || s.pc.Error? || s0.ip < s.ip || (s0.ip == s.ip && Rank(s.pc) < Rank(s0.pc))
    ensures s0.op <= s.op && dst[..s0.op] == old(dst[..s0.op]) && At(c, k, hist, dst[..], s, ss')
  {
    hide LiteralField, MatchField, AtToken, AfterLiterals, Acceptable, Complete;
    ss' := ss;
    match s0.pc
    case Token =>
      TokenInside(c, k, hist, dst[..], s0.ip, s0.op, ss);
      s, ss' := SafeToken(c, k, hist, dst, s0.ip, s0.op, ss);
    case Literals(_, _) =>
      s := SafeLiterals(c, k, hist, dst, s0, ss);
    case MatchCode(_, _) =>
      s := SafeMatchCode(c, k, hist, dst, s0, ss);
    case MatchCopy(_, _, _) =>
      s, ss' := SafeMatchCopy(c, k, hist, dst, s0, ss);
  }

  lemma InputInside(c: Call, k: nat, hist: seq<byte>, d: seq<byte>, s: State, ss: seq<Sequence>)
    requires k <= |c.src| && At(c, k, hist, d, s, ss) && !s.pc.Finished? && !s.pc.Error?
    ensures s.ip <= |c.src| && s.op <= |d|
  {
  }

  method SafeLoop(c: Call, ghost k: nat, ghost hist: seq<byte>, dst: array<byte>, start: nat, s0: State, ghost ss0: seq<Sequence>)
    returns (s: State)
    requires k <= |c.src| && (c.partial || k == |c.src|) && (c.prefix64k ==> 65535 <= start)
    requires start <= dst.Length && start <= s0.op && At(c, k, hist, dst[..], s0, ss0)
    modifies dst
    ensures s.pc.Finished? || s.pc.Error?
    ensures start <= s.op && dst[..start] == old(dst[..start]) && At(c, k, hist, dst[..], s, [])
  {
    hide LiteralField, MatchField, AtToken, AfterLiterals, Acceptable, Complete;
    s := s0;
    ghost var ss := ss0;
    while !s.pc.Finished? && !s.pc.Error?
      invariant start <= s.op && dst[..start] == old(dst[..start])
      invariant At(c, k, hist, dst[..], s, ss)
      decreases if s.pc.Finished? || s.pc.Error? then 0 else 1 + |c.src| - s.ip, Rank(s.pc)
    {
      InputInside(c, k, hist, dst[..], s, ss);
      ghost var op0, front := s.op, dst[..s.op];
      assert front[..start] == dst[..start];
      s, ss := SafeStep(c, k, hist, dst, s, ss);
      assert dst[..op0] == front && dst[..start] == dst[..op0][..start];
    }
  }

  /** LZ4_decompress_generic.  The result is the number of bytes decoded, or negative.

      Full decoding: a result is the whole block, and every valid block that fits is
      decoded.  Partial decoding of a valid block yields as much of its content as the
      area takes.  Nothing in front of the area changes. */
  method DecompressGeneric(c: Call, dst: array<byte>, start: nat, ghost k: nat, ghost hist: seq<byte>) returns (r: int)
    requires start <= dst.Length && hist == c.dict + dst[..start]
    requires k <= |c.src| && (c.partial || k == |c.src|) && (c.prefix64k ==> 65535 <= start)
    modifies dst
    ensures dst[..start] == old(dst[..start])
    ensures 0 <= r ==> start + r <= dst.Length
    ensures 0 <= r ==> Complete(c, k, hist, dst[..], start + r)
    ensures r < 0 ==> !Acceptable(c, k, hist, dst.Length)
    ensures !c.partial && start == dst.Length ==> (0 <= r <==> c.src == [0])
  {
    hide AtToken, AfterLiterals, Acceptable, Complete;
    if start == dst.Length {
      NoOutput(c, k, hist, dst[..], start);
      return if c.partial || c.src == [0] then 0 else -1;
    }
    if c.src == [] {
      NoInput(c, k, hist, dst.Length);
      return -1;
    }
    Beginning(c, k, hist, dst[..], start);
    var s := State(Token, 0, start);
    ghost var ss := [];
    if dst.Length - start >= FASTLOOP_SAFE_DISTANCE {
      s, ss := FastLoop(c, k, hist, dst, start);
    }
    s := SafeLoop(c, k, hist, dst, start, s, ss);
    FinalPosition(c, k, hist, dst[..], s);
    r := if s.pc.Finished? then s.op - start else -(s.ip as int) - 1;
  }

  lemma FinalPosition(c: Call, k: nat, hist: seq<byte>, d: seq<byte>, s: State)
    requires k <= |c.src| && At(c, k, hist, d, s, []) && (s.pc.Finished? || s.pc.Error?)
    ensures s.pc.Finished? ==> s.op <= |d|
  {
  }

  lemma Beginning(c: Call, k: nat, hist: seq<byte>, d: seq<byte>, start: nat)
    requires k <= |c.src| && c.src != [] && start <= |d| && hist == c.dict + d[..start]
    ensures AtToken(c, k, hist, d, 0, start, [])
  {
    ReadNothing(c.src[..k], hist);
  }

  lemma NoInput(c: Call, k: nat, hist: seq<byte>, oend: nat)
    requires k <= |c.src| && c.src == []
    ensures !Acceptable(c, k, hist, oend)
  {
    assert c.src[..k] == [];
  }

  /** An empty output area takes the empty block only. */
  lemma NoOutput(c: Call, k: nat, hist: seq<byte>, d: seq<byte>, start: nat)
    requires k <= |c.src| && (c.partial || k == |c.src|) && start == |d| && hist == c.dict + d
    ensures c.partial || c.src == [0] ==> Complete(c, k, hist, d, start)
    ensures !(c.partial || c.src == [0]) ==> !Acceptable(c, k, hist, |d|)
  {
    assert d[..start] == d;
    if c.partial {
      hide ParseBlock, Replay, Decodable;
      assert Acceptable(c, k, hist, |d|) ==> hist <= Output(hist, ParseBlock(c.src[..k]).value);
    } else if c.src == [0] {
      EmptyBlock(hist);
    }
  }

  lemma EmptyBlock(hist: seq<byte>)
    ensures ParseBlock([0]) == Some(Block([], [])) && Output(hist, Block([], [])) == hist
  {
    assert EncodeBlock(Block([], [])) == [0];
    ParseEncodedBlock(Block([], []));
  }
}
