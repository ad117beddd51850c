/** The decoder's match copies: strides of 2 to 16 bytes that may overlap the match
    they copy and run past its end.

    Every copy leaves the bytes in front of `op` alone and makes the bytes behind it
    repeat those `offset` places before: `Repeats(dst[..], op, op - offset, n)`.  By
    `SourceParse.CopyOfMatch` that is the byte-by-byte copy of the format.
 */
module OverlapCopy {
  import opened BlockFormat
  import opened SourceParse

  lemma {:induction false} RepeatsAt(x: seq<byte>, s: nat, r: nat, len: nat, k: nat)
    requires s + len <= |x| && r + len <= |x| && Repeats(x, s, r, len) && k < len
    ensures x[s + k] == x[r + k]
  {
    if k < len - 1 {
      RepeatsAt(x, s, r, len - 1, k);
    }
  }

  lemma {:induction false} AppendRepeats(x: seq<byte>, s: nat, r: nat, a: nat, b: nat)
    requires s + a + b <= |x| && r + a + b <= |x|
    requires Repeats(x, s, r, a) && Repeats(x, s + a, r + a, b)
    ensures Repeats(x, s, r, a + b)
  {
    if b != 0 {
      AppendRepeats(x, s, r, a, b - 1);
    }
  }

  lemma {:induction false} RepeatsShorter(x: seq<byte>, s: nat, r: nat, a: nat, b: nat)
    requires s + a <= |x| && r + a <= |x| && Repeats(x, s, r, a) && b <= a
    ensures Repeats(x, s, r, b)
  {
    if b < a {
      RepeatsShorter(x, s, r, a - 1, b);
    }
  }

  /** In bytes of period `p`, going back `m` periods at once changes nothing. */
  lemma {:induction false} StepBack(x: seq<byte>, op: nat, p: nat, n: nat, m: nat)
    requires 1 <= p <= op <= n <= |x| && Repeats(x, op, op - p, n - op)
    requires 1 <= m && op - p <= n - m * p && p <= n
    ensures x[n - p] == x[n - m * p]
  {
    if m != 1 {
      assert n - m * p == n - (m - 1) * p - p;
      StepBack(x, op, p, n, m - 1);
      var k := n - (m - 1) * p - op;
      assert op <= n - (m - 1) * p;
      RepeatsAt(x, op, op - p, n - op, k);
    }
  }

  /** Bytes of period `p` stay so when continued with a multiple of the period. */
  lemma {:induction false} ContinuePeriod(x: seq<byte>, op: nat, p: nat, a: nat, m: nat, len: nat)
    requires 1 <= p <= op && 1 <= m && m * p <= a + p && op + a + len <= |x|
    requires Repeats(x, op, op - p, a) && Repeats(x, op + a, op + a - m * p, len)
    ensures Repeats(x, op, op - p, a + len)
  {
    if len != 0 {
      ContinuePeriod(x, op, p, a, m, len - 1);
      StepBack(x, op, p, op + a + len - 1, m);
    }
  }

  lemma {:induction false} RepeatsFrame(x: seq<byte>, y: seq<byte>, s: nat, r: nat, len: nat)
    requires r <= s && s + len <= |x| && s + len <= |y| && x[..s + len] == y[..s + len]
    requires Repeats(x, s, r, len)
    ensures Repeats(y, s, r, len)
  {
    RepeatsIsEquality(x, s, r, len);
    RepeatsIsEquality(y, s, r, len);
    SliceOfPrefix(x, s + len, s, s + len);
    SliceOfPrefix(y, s + len, s, s + len);
    SliceOfPrefix(x, s + len, r, r + len);
    SliceOfPrefix(y, s + len, r, r + len);
  }

  // ----- Strides -----

  /** memcpy of `n` bytes from `distance` places before: the two areas never overlap. */
  method Stride(dst: array<byte>, op: nat, distance: nat, n: nat)
    requires n <= distance <= op && op + n <= dst.Length
    modifies dst
    ensures dst[..op] == old(dst[..op])
    ensures Repeats(dst[..], op, op - distance, n)
  {
    hide Repeats;
    forall i | 0 <= i < n { dst[op + i] := dst[op - distance + i]; }
    RepeatsByByte(dst[..], op, distance, n);
  }

  lemma {:induction false} RepeatsByByte(x: seq<byte>, op: nat, distance: nat, n: nat)
    requires distance <= op && op + n <= |x| && forall i :: op <= i < op + n ==> x[i] == x[i - distance]
    ensures Repeats(x, op, op - distance, n)
  {
    if n != 0 {
      RepeatsByByte(x, op, distance, n - 1);
    }
  }

  /** The same, continuing a copy that starts at `op`. */
  method NextStride(dst: array<byte>, ghost op: nat, d: nat, distance: nat, n: nat)
    requires op <= d && n <= distance <= op && d + n <= dst.Length
    requires Repeats(dst[..], op, op - distance, d - op)
    modifies dst
    ensures dst[..op] == old(dst[..op])
    ensures Repeats(dst[..], op, op - distance, d + n - op)
  {
    ghost var before := dst[..];
    Stride(dst, d, distance, n);
    assert dst[..op] == dst[..d][..op] == before[..d][..op];
    RepeatsFrame(before, dst[..], op, op - distance, d - op);
    AppendRepeats(dst[..], op, op - distance, d - op, n);
  }

  /** LZ4_wildCopy8 within the output, continuing at `d0` a copy that starts at `op`. */
  method WildCopy8(dst: array<byte>, ghost op: nat, d0: nat, distance: nat, e: nat)
    requires 8 <= distance <= op <= d0 <= e && (if d0 < e then e + 7 else e + 8) <= dst.Length
    requires Repeats(dst[..], op, op - distance, d0 - op)
    modifies dst
    ensures dst[..op] == old(dst[..op])
    ensures Repeats(dst[..], op, op - distance, e - op)
  {
    var d := d0;
    while true
      invariant d0 <= d <= e && (d0 < d ==> d < e)
      invariant dst[..op] == old(dst[..op]) && Repeats(dst[..], op, op - distance, d - op)
      decreases e + 8 - d
    {
      NextStride(dst, op, d, distance, 8);
      d := d + 8;
      if d >= e { break; }
    }
    RepeatsShorter(dst[..], op, op - distance, d - op, e - op);
  }

  /** LZ4_wildCopy32: two strides of 16 at a time. */
  method WildCopy32(dst: array<byte>, op: nat, distance: nat, e: nat)
    requires 16 <= distance <= op && op <= e && (if op < e then e + 31 else e + 32) <= dst.Length
    modifies dst
    ensures dst[..op] == old(dst[..op])
    ensures Repeats(dst[..], op, op - distance, e - op)
  {
    var d := op;
    while true
      invariant op <= d <= e && (op < d ==> d < e)
      invariant dst[..op] == old(dst[..op]) && Repeats(dst[..], op, op - distance, d - op)
      decreases e + 32 - d
    {
      NextStride(dst, op, d, distance, 16);
      NextStride(dst, op, d + 16, distance, 16);
      d := d + 32;
      if d >= e { break; }
    }
    RepeatsShorter(dst[..], op, op - distance, d - op, e - op);
  }

  /** The 18 bytes of the shortcut. */
  method Copy18(dst: array<byte>, op: nat, distance: nat, length: nat)
    requires 8 <= distance <= op && op + 18 <= dst.Length && length <= 18
    modifies dst
    ensures dst[..op] == old(dst[..op])
    ensures Repeats(dst[..], op, op - distance, length)
  {
    Stride(dst, op, distance, 8);
    NextStride(dst, op, op + 8, distance, 8);
    NextStride(dst, op, op + 16, distance, 2);
    RepeatsShorter(dst[..], op, op - distance, 18, length);
  }

  /** One byte after the other up to `e`, continuing at `d0` a copy that starts at `op`. */
  method CopyBytes(dst: array<byte>, ghost op: nat, d0: nat, distance: nat, e: nat)
    requires 1 <= distance <= op <= d0 <= e <= dst.Length
    requires Repeats(dst[..], op, op - distance, d0 - op)
    modifies dst
    ensures dst[..op] == old(dst[..op])
    ensures Repeats(dst[..], op, op - distance, e - op)
  {
    for d := d0 to e
      invariant dst[..op] == old(dst[..op]) && Repeats(dst[..], op, op - distance, d - op)
    {
      NextStride(dst, op, d, distance, 1);
    }
  }

  // ----- Short offsets -----

  const INC32TABLE: seq<int> := [0, 1, 2, 1, 0, 4, 4, 4]
  const DEC64TABLE: seq<int> := [0, 0, 0, -1, -4, 1, 2, 3]

  /** How many offsets behind `op + 8` the copy goes on reading after eight bytes. */
  function Periods(offset: nat): (m: nat)
    ensures 1 <= m && (1 <= offset ==> 8 <= m * offset <= 8 + offset)
  {
    match offset
    case 1 => 8
    case 2 => 4
    case 3 => 3
    case 4 => 2
    case 5 => 2
    case 6 => 2
    case 7 => 2
    case _ => 1
  }

  /** Where the second four bytes come from, in offsets. */
  function HalfPeriods(offset: nat): nat {
    match offset
    case 1 => 4
    case 2 => 2
    case 3 => 2
    case 4 => 2
    case _ => 1
  }

  /** The tables send the copy to whole multiples of the offset. */
  lemma TablesKeepThePeriod(offset: nat)
    requires 1 <= offset < 8
    ensures 4 + offset - INC32TABLE[offset] == HalfPeriods(offset) * offset
    ensures 8 + offset - INC32TABLE[offset] + DEC64TABLE[offset] == Periods(offset) * offset
    ensures 4 <= HalfPeriods(offset) * offset <= 4 + offset
  {
  }

  predicate Zeros(x: seq<byte>, a: nat, b: nat)
    requires b <= |x|
  {
    forall i :: a <= i < b ==> x[i] == 0
  }

  /** What the copy of a match has to leave behind: bytes that repeat those `offset`
      places before, or zeros for the invalid offset 0. */
  predicate Copied(x: seq<byte>, op: nat, offset: nat, len: nat)
    requires offset <= op && op + len <= |x|
  {
    if offset == 0 then Zeros(x, op, op + len) else Repeats(x, op, op - offset, len)
  }

  /** For offset 0: four zeros, and four copies of them. */
  method EightZeros(dst: array<byte>, op: nat)
    requires op + 8 <= dst.Length
    modifies dst
    ensures dst[..op] == old(dst[..op]) && Copied(dst[..], op, 0, 8)
  {
    forall i | 0 <= i < 4 { dst[op + i] := 0; }
    Stride(dst, op + 4, 4, 4);
    ghost var x := dst[..];
    assert forall i :: op <= i < op + 4 ==> x[i] == x[..op + 4][i] == 0;
    assert forall i :: op + 4 <= i < op + 8 ==> x[i] == 0 by { ZerosContinue(x, op, 4, 4, 4); }
    assert x[..op] == x[..op + 4][..op];
  }

  /** The first eight bytes of a match; the copy goes on from `distance` before. */
  method FirstEight(dst: array<byte>, op: nat, offset: nat) returns (distance: nat)
    requires offset <= op && op + 8 <= dst.Length
    modifies dst
    ensures dst[..op] == old(dst[..op]) && Copied(dst[..], op, offset, 8)
    ensures 8 <= distance <= op + 8 && distance == if offset == 0 then 8 else Periods(offset) * offset
  {
    if offset == 0 {
      EightZeros(dst, op);
      distance := 8;
    } else if offset < 8 {
      TablesKeepThePeriod(offset);
      CopyBytes(dst, op, op, offset, op + 4);
      ghost var before := dst[..];
      Stride(dst, op + 4, 4 + offset - INC32TABLE[offset], 4);
      RepeatsFrame(before, dst[..], op, op - offset, 4);
      ContinuePeriod(dst[..], op, offset, 4, HalfPeriods(offset), 4);
      assert dst[..op] == dst[..op + 4][..op] == before[..op + 4][..op];
      distance := 8 + offset - INC32TABLE[offset] + DEC64TABLE[offset];
    } else {
      Stride(dst, op, offset, 8);
      distance := offset;
    }
  }

  lemma {:induction false} ZerosContinue(x: seq<byte>, op: nat, a: nat, distance: nat, len: nat)
    requires 1 <= distance <= a && op + a + len <= |x|
    requires Zeros(x, op, op + a) && Repeats(x, op + a, op + a - distance, len)
    ensures Zeros(x, op, op + a + len)
  {
    if len != 0 {
      ZerosContinue(x, op, a, distance, len - 1);
    }
  }

  /** Continuing after the first bytes keeps the copy going. */
  lemma CopiedContinues(x: seq<byte>, op: nat, offset: nat, a: nat, distance: nat, len: nat)
    requires offset <= op && 8 <= a && op + a + len <= |x| && distance <= op + a && 8 <= distance
    requires distance == if offset == 0 then 8 else Periods(offset) * offset
    requires Copied(x, op, offset, a) && Repeats(x, op + a, op + a - distance, len)
    ensures Copied(x, op, offset, a + len)
  {
    if offset == 0 {
      ZerosContinue(x, op, a, distance, len);
    } else {
      ContinuePeriod(x, op, offset, a, Periods(offset), len);
    }
  }

  lemma CopiedFrame(x: seq<byte>, y: seq<byte>, op: nat, offset: nat, len: nat)
    requires offset <= op && op + len <= |x| && op + len <= |y| && x[..op + len] == y[..op + len]
    requires Copied(x, op, offset, len)
    ensures Copied(y, op, offset, len)
  {
    if offset == 0 {
      assert forall i :: op <= i < op + len ==> y[i] == y[..op + len][i] == x[..op + len][i] == x[i];
    } else {
      RepeatsFrame(x, y, op, op - offset, len);
    }
  }

  lemma {:induction false} CopiedShorter(x: seq<byte>, op: nat, offset: nat, a: nat, b: nat)
    requires offset <= op && op + a <= |x| && b <= a && Copied(x, op, offset, a)
    ensures Copied(x, op, offset, b)
  {
    if offset != 0 {
      RepeatsShorter(x, op, op - offset, a, b);
    }
  }

  /** The result is the byte-by-byte copy of the format, history included. */
  lemma {:induction false} CopiedIsCopyMatch(dict: seq<byte>, x: seq<byte>, op: nat, offset: nat, len: nat)
    requires offset <= op && op + len <= |x| && Copied(x, op, offset, len)
    ensures CopyMatch(dict + x[..op], offset, len) == dict + x[..op + len]
  {
    if len != 0 {
      CopiedShorter(x, op, offset, len, len - 1);
      LastCopied(x, op, offset, len);
      CopiedIsCopyMatch(dict, x, op, offset, len - 1);
      OneMore(dict, x, op + len - 1);
      hide Copied;
      var y := dict + x[..op + len - 1];
      assert offset != 0 ==> y[|y| - offset] == x[op + len - 1 - offset];
    }
  }

  lemma OneMore(dict: seq<byte>, x: seq<byte>, n: nat)
    requires n < |x|
    ensures dict + x[..n + 1] == dict + x[..n] + [x[n]]
  {
    assert x[..n + 1] == x[..n] + [x[n]];
  }

  lemma LastCopied(x: seq<byte>, op: nat, offset: nat, len: nat)
    requires offset <= op && op + len <= |x| && len != 0 && Copied(x, op, offset, len)
    ensures x[op + len - 1] == if offset == 0 then 0 else x[op + len - 1 - offset]
  {
  }

  // ----- Whole matches -----

  const MATCH_SAFEGUARD_DISTANCE: nat := 2 * WILDCOPYLENGTH - MINMATCH

  /** The match copy of the safe loop.  `ok` is false when the match leaves fewer than
      five bytes of the output for the last literals. */
  method CopyMatchSafely(dst: array<byte>, op: nat, offset: nat, length: nat) returns (ok: bool)
    requires offset <= op && op + MATCH_SAFEGUARD_DISTANCE <= dst.Length && MINMATCH <= length
    modifies dst
    ensures ok == (op + length + LASTLITERALS <= dst.Length)
    ensures dst[..op] == old(dst[..op])
    ensures ok ==> Copied(dst[..], op, offset, length)
  {
    var cpy := op + length;
    var distance := FirstEight(dst, op, offset);
    if cpy + MATCH_SAFEGUARD_DISTANCE > dst.Length {
      if cpy + LASTLITERALS > dst.Length { return false; }
      CopyTail(dst, op, offset, distance, cpy);
    } else {
      ContinueCopy(dst, op, offset, distance, cpy);
    }
    ok := true;
  }

  /** Near the end of the output: strides up to seven bytes before it, then bytes. */
  method CopyTail(dst: array<byte>, op0: nat, ghost offset: nat, distance: nat, cpy: nat)
    requires offset <= op0 && op0 + 8 <= dst.Length && op0 + MINMATCH <= cpy && cpy + LASTLITERALS <= dst.Length
    requires 8 <= distance <= op0 + 8 && distance == if offset == 0 then 8 else Periods(offset) * offset
    requires Copied(dst[..], op0, offset, 8)
    modifies dst
    ensures dst[..op0] == old(dst[..op0]) && Copied(dst[..], op0, offset, cpy - op0)
  {
    ghost var before := dst[..];
    var op := op0 + 8;
    var oCopyLimit := dst.Length - (WILDCOPYLENGTH - 1);
    if op < oCopyLimit {
      WildCopy8(dst, op, op, distance, oCopyLimit);
      op := oCopyLimit;
    }
    if op < cpy {
      CopyBytes(dst, op0 + 8, op, distance, cpy);
      op := cpy;
    }
    FinishCopy(before, dst[..], op0, offset, distance, op - (op0 + 8), cpy - op0);
  }

  /** Away from the end: eight more bytes, then strides for matches over 16 bytes. */
  method ContinueCopy(dst: array<byte>, op0: nat, ghost offset: nat, distance: nat, cpy: nat)
    requires offset <= op0 && op0 + MINMATCH <= cpy && cpy + MATCH_SAFEGUARD_DISTANCE <= dst.Length
    requires 8 <= distance <= op0 + 8 && distance == if offset == 0 then 8 else Periods(offset) * offset
    requires Copied(dst[..], op0, offset, 8)
    modifies dst
    ensures dst[..op0] == old(dst[..op0]) && Copied(dst[..], op0, offset, cpy - op0)
  {
    ghost var before := dst[..];
    var op := op0 + 8;
    Stride(dst, op, distance, 8);
    ghost var n := 8;
    if cpy - op0 > 16 {
      WildCopy8(dst, op, op + 8, distance, cpy);
      n := cpy - op;
    }
    FinishCopy(before, dst[..], op0, offset, distance, n, cpy - op0);
  }

  lemma FinishCopy(before: seq<byte>, x: seq<byte>, op: nat, offset: nat, distance: nat, n: nat, length: nat)
    requires offset <= op && op + 8 + n <= |x| && op + 8 <= |before| && length <= 8 + n
    requires 8 <= distance <= op + 8 && distance == if offset == 0 then 8 else Periods(offset) * offset
    requires Copied(before, op, offset, 8) && x[..op + 8] == before[..op + 8]
    requires Repeats(x, op + 8, op + 8 - distance, n)
    ensures x[..op] == before[..op] && Copied(x, op, offset, length)
  {
    CopiedFrame(before, x, op, offset, 8);
    CopiedContinues(x, op, offset, 8, distance, n);
    CopiedShorter(x, op, offset, 8 + n, length);
    SliceOfPrefix(x, op + 8, 0, op);
    SliceOfPrefix(before, op + 8, 0, op);
    assert x[..op] == x[0..op] && before[..op] == before[0..op];
  }

  /** The match copy of the fast loop (LZ4_memcpy_using_offset or LZ4_wildCopy32). */
  method CopyMatchFast(dst: array<byte>, op: nat, offset: nat, length: nat)
    requires offset <= op && op + length + 64 <= dst.Length && MINMATCH <= length
    modifies dst
    ensures dst[..op] == old(dst[..op]) && Copied(dst[..], op, offset, length)
  {
    var cpy := op + length;
    if offset >= 16 {
      WildCopy32(dst, op, offset, cpy);
    } else if offset == 1 || offset == 2 || offset == 4 {
      RepeatPattern(dst, op, offset, cpy);
    } else {
      var distance := FirstEight(dst, op, offset);
      ghost var before := dst[..];
      var e := if cpy < op + 8 then op + 8 else cpy;
      WildCopy8(dst, op + 8, op + 8, distance, e);
      FinishCopy(before, dst[..], op, offset, distance, e - (op + 8), length);
    }
  }

  /** Offsets 1, 2 and 4: eight bytes of the pattern. */
  function Pattern(s: seq<byte>): (v: seq<byte>)
    requires |s| == 1 || |s| == 2 || |s| == 4
    ensures |v| == 8 && (forall j :: 0 <= j < |s| ==> v[j] == s[j]) && (forall j :: |s| <= j < 8 ==> v[j] == v[j - |s|])
  {
    if |s| == 1 then s + s + s + s + s + s + s + s
    else if |s| == 2 then s + s + s + s
    else s + s
  }

  method PutPattern(dst: array<byte>, d: nat, v: seq<byte>)
    requires |v| == 8 && d + 8 <= dst.Length
    modifies dst
    ensures dst[..d] == old(dst[..d]) && dst[..][d..d + 8] == v
  {
    forall i | 0 <= i < 8 { dst[d + i] := v[i]; }
  }

  /** Once more behind eight bytes of the pattern: a stride of distance eight. */
  method PutPatternAgain(dst: array<byte>, ghost op: nat, d: nat, v: seq<byte>)
    requires |v| == 8 && 8 <= op <= d && d + 8 <= dst.Length && dst[..][d - 8..d] == v
    requires Repeats(dst[..], op, op - 8, d - op)
    modifies dst
    ensures dst[..op] == old(dst[..op]) && dst[..][d..d + 8] == v
    ensures Repeats(dst[..], op, op - 8, d + 8 - op)
  {
    ghost var was := dst[..];
    PutPattern(dst, d, v);
    ghost var x := dst[..];
    SliceOfPrefix(x, d, d - 8, d);
    SliceOfPrefix(was, d, d - 8, d);
    RepeatsFrame(was, x, op, op - 8, d - op);
    RepeatsIsEquality(x, d, d - 8, 8);
    AppendRepeats(x, op, op - 8, d - op, 8);
    assert x[..op] == x[..d][..op] == was[..d][..op];
  }

  /** The first eight bytes of the pattern repeat the bytes it is made of. */
  method StartPattern(dst: array<byte>, op: nat, offset: nat) returns (v: seq<byte>)
    requires offset == 1 || offset == 2 || offset == 4
    requires offset <= op && op + 8 <= dst.Length
    modifies dst
    ensures |v| == 8 && dst[..op] == old(dst[..op]) && dst[..][op..op + 8] == v
    ensures Repeats(dst[..], op, op - offset, 8)
  {
    hide Pattern;
    var s := dst[op - offset..op];
    v := Pattern(s);
    ghost var was := dst[..];
    PutPattern(dst, op, v);
    ghost var x := dst[..];
    SliceOfPrefix(x, op, op - offset, op);
    SliceOfPrefix(was, op, op - offset, op);
    PatternRepeats(x, op, offset, s, v);
  }

  /** Behind the bytes it is made of, a pattern repeats them. */
  lemma PatternRepeats(x: seq<byte>, op: nat, offset: nat, s: seq<byte>, v: seq<byte>)
    requires 1 <= offset <= op && op + 8 <= |x| && |s| == offset && |v| == 8
    requires x[op - offset..op] == s && x[op..op + 8] == v
    requires (forall j :: 0 <= j < offset && j < 8 ==> v[j] == s[j]) && (forall j :: offset <= j < 8 ==> v[j] == v[j - offset])
    ensures Repeats(x, op, op - offset, 8)
  {
    hide Repeats;
    var from := op - offset;
    var copy := x[from..from + 8];
    forall j | 0 <= j < 8 ensures v[j] == copy[j] {
      if j < offset {
        assert x[from + j] == x[from..op][j] == s[j];
      } else {
        assert x[from + j] == x[op..op + 8][j - offset] == v[j - offset];
      }
    }
    assert v == copy;
    RepeatsIsEquality(x, op, from, 8);
  }

  lemma NothingRepeats(x: seq<byte>, s: nat, r: nat)
    requires s <= |x| && r <= |x|
    ensures Repeats(x, s, r, 0)
  {
  }

  /** ... written again and again. */
  method RepeatPattern(dst: array<byte>, op: nat, offset: nat, cpy: nat)
    requires offset == 1 || offset == 2 || offset == 4
    requires offset <= op && op + MINMATCH <= cpy && cpy + 8 <= dst.Length
    modifies dst
    ensures dst[..op] == old(dst[..op]) && Copied(dst[..], op, offset, cpy - op)
  {
    hide Repeats;
    var v := StartPattern(dst, op, offset);
    ghost var before := dst[..];
    var d := op + 8;
    NothingRepeats(before, d, op);
    while d < cpy
      invariant op + 8 <= d <= cpy + 7
      invariant dst[..op + 8] == before[..op + 8] && dst[..][d - 8..d] == v
      invariant Repeats(dst[..], op + 8, op, d - (op + 8))
    {
      PutPatternAgain(dst, op + 8, d, v);
      d := d + 8;
    }
    FinishCopy(before, dst[..], op, offset, 8, d - (op + 8), cpy - op);
  }
}
