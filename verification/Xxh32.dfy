/** XXH32: the one-shot hash, the streaming state, and why they agree.

    `Hash` is the specification: whole stripes of 16 bytes first, then the remaining
    bytes four at a time and one at a time.  Memory is read as little-endian.
 */
module Xxh32 {
  import opened Basics
  import opened BlockFormat
  import opened HashWords

  type U32 = x: nat | x < TWO32

  const PRIME32_1: U32 := 2654435761
  const PRIME32_2: U32 := 2246822519
  const PRIME32_3: U32 := 3266489917
  const PRIME32_4: U32 := 668265263
  const PRIME32_5: U32 := 374761393

  datatype Acc = Acc(v1: U32, v2: U32, v3: U32, v4: U32)

  // ----- Arithmetic on words -----

  function Add(a: U32, b: U32): U32 { (a + b) % TWO32 }

  function Mul(a: U32, b: U32): U32 { (a * b) % TWO32 }

  function ToWord(b: bv32): U32 { b as nat }

  function Xor(a: U32, b: U32): U32 { ToWord((a as bv32) ^ (b as bv32)) }

  /** `a` and `a` shifted to the right by `n` places, where `down` is 2^n. */
  function XorShifted(a: U32, down: nat): U32
    requires 1 < down
  {
    Xor(a, (a / down) % TWO32)
  }

  /** Rotates to the left by `n` places, where `up` is 2^n and `down` is 2^(32 - n). */
  function RotateLeft(a: U32, up: nat, down: nat): U32
    requires 0 < down
  {
    (a * up + a / down) % TWO32
  }

  function Round(seed: U32, input: U32): U32 {
    Mul(RotateLeft(Add(seed, Mul(input, PRIME32_2)), 0x2000, 0x8_0000), PRIME32_1)
  }

  function Avalanche(h: U32): U32 {
    var h1 := Mul(XorShifted(h, 0x8000), PRIME32_2);
    var h2 := Mul(XorShifted(h1, 0x2000), PRIME32_3);
    XorShifted(h2, 0x1_0000)
  }

  function Word(b0: byte, b1: byte, b2: byte, b3: byte): U32 {
    b0 as nat + 0x100 * (b1 as nat + 0x100 * (b2 as nat + 0x100 * b3 as nat))
  }

  function ReadLE32(s: seq<byte>, p: nat): U32
    requires p + 4 <= |s|
  {
    Word(s[p], s[p + 1], s[p + 2], s[p + 3])
  }

  function Process1(h: U32, b: byte): U32 {
    Mul(RotateLeft(Add(h, Mul(b as nat, PRIME32_5)), 0x800, 0x20_0000), PRIME32_1)
  }

  function Process4(h: U32, w: U32): U32 {
    Mul(RotateLeft(Add(h, Mul(w, PRIME32_3)), 0x2_0000, 0x8000), PRIME32_4)
  }

  function Init(seed: U32): Acc {
    Acc(Add(Add(seed, PRIME32_1), PRIME32_2), Add(seed, PRIME32_2), seed, (seed - PRIME32_1) % TWO32)
  }

  function Merge(a: Acc): U32 {
    Add(Add(Add(RotateLeft(a.v1, 0x2, 0x8000_0000), RotateLeft(a.v2, 0x80, 0x200_0000)), RotateLeft(a.v3, 0x1000, 0x10_0000)), RotateLeft(a.v4, 0x4_0000, 0x4000))
  }

  function Short(seed: U32): U32 {
    Add(seed, PRIME32_5)
  }

  function Stripe(a: Acc, s: seq<byte>, p: nat): Acc
    requires p + 16 <= |s|
  {
    Acc(Round(a.v1, ReadLE32(s, p)), Round(a.v2, ReadLE32(s, p + 4)),
        Round(a.v3, ReadLE32(s, p + 8)), Round(a.v4, ReadLE32(s, p + 12)))
  }

  // ----- Specification -----

  /** All whole stripes of `s`. */
  function Stripes(a: Acc, s: seq<byte>): Acc
    decreases |s|
  {
    if |s| < 16 then a else Stripes(Stripe(a, s, 0), s[16..])
  }

  /** Words while they last, then bytes. */
  function Tail(h: U32, s: seq<byte>): U32
    decreases |s|
  {
    if |s| >= 4 then Tail(Process4(h, ReadLE32(s, 0)), s[4..])
    else if |s| >= 1 then Tail(Process1(h, s[0]), s[1..])
    else h
  }

  /** The length enters modulo 2^32. */
  function Hash(s: seq<byte>, seed: U32): U32 {
    var h := if |s| >= 16 then Merge(Stripes(Init(seed), s)) else Short(seed);
    Avalanche(Tail(Add(h, |s| % TWO32), s[|s| - |s| % 16..]))
  }

  /** Only the 16 bytes read matter. */
  lemma StripeElsewhere(a: Acc, s: seq<byte>, p: nat, t: seq<byte>, q: nat)
    requires p + 16 <= |s| && q + 16 <= |t| && s[p..p + 16] == t[q..q + 16]
    ensures Stripe(a, s, p) == Stripe(a, t, q)
  {
    hide Round, ReadLE32;
    WordElsewhere(s, p, t, q, 0);
    WordElsewhere(s, p, t, q, 4);
    WordElsewhere(s, p, t, q, 8);
    WordElsewhere(s, p, t, q, 12);
  }

  lemma WordElsewhere(s: seq<byte>, p: nat, t: seq<byte>, q: nat, i: nat)
    requires p + 16 <= |s| && q + 16 <= |t| && s[p..p + 16] == t[q..q + 16] && i + 4 <= 16
    ensures ReadLE32(s, p + i) == ReadLE32(t, q + i)
  {
    hide Word;
    var x, y := s[p..p + 16], t[q..q + 16];
    assert x[i] == y[i] && x[i + 1] == y[i + 1] && x[i + 2] == y[i + 2] && x[i + 3] == y[i + 3];
  }

  lemma {:induction false} StripesAppend(a: Acc, s: seq<byte>, t: seq<byte>)
    requires |s| % 16 == 0
    ensures Stripes(a, s + t) == Stripes(Stripes(a, s), t)
    decreases |s|
  {
    hide Stripe;
    if |s| == 0 {
      assert s + t == t;
    } else {
      assert (s + t)[16..] == s[16..] + t;
      assert (s + t)[0..16] == s[0..16];
      StripeElsewhere(a, s + t, 0, s, 0);
      StripesAppend(Stripe(a, s, 0), s[16..], t);
    }
  }

  lemma OneMoreStripe(a: Acc, s: seq<byte>, p: nat)
    requires p % 16 == 0 && p + 16 <= |s|
    ensures Stripes(a, s[..p + 16]) == Stripe(Stripes(a, s[..p]), s, p)
  {
    hide Stripe;
    var t := s[p..p + 16];
    assert s[..p + 16] == s[..p] + t;
    StripesAppend(a, s[..p], t);
    assert t[0..16] == t;
    StripeElsewhere(Stripes(a, s[..p]), s, p, t, 0);
    assert Stripes(Stripe(Stripes(a, s[..p]), t, 0), t[16..]) == Stripe(Stripes(a, s[..p]), t, 0);
  }

  /** A remainder of less than a stripe changes nothing. */
  lemma StripesOfPrefix(a: Acc, s: seq<byte>)
    ensures Stripes(a, s) == Stripes(a, s[..|s| - |s| % 16])
  {
    var n := |s| - |s| % 16;
    assert s == s[..n] + s[n..];
    StripesAppend(a, s[..n], s[n..]);
  }

  // ----- One-shot hash -----

  method StepFour(h: U32, s: seq<byte>, p: nat) returns (h': U32, p': nat)
    requires p + 4 <= |s|
    ensures p' == p + 4 && Tail(h', s[p'..]) == Tail(h, s[p..])
  {
    hide Process4, Process1, ReadLE32;
    h', p' := Process4(h, ReadLE32(s, p)), p + 4;
    WordInTail(s, p);
    assert s[p..][4..] == s[p + 4..];
  }

  lemma WordInTail(s: seq<byte>, p: nat)
    requires p + 4 <= |s|
    ensures ReadLE32(s, p) == ReadLE32(s[p..], 0)
  {
    hide Word;
  }

  method StepOne(h: U32, s: seq<byte>, p: nat) returns (h': U32, p': nat)
    requires p < |s| < p + 4
    ensures p' == p + 1 && Tail(h', s[p'..]) == Tail(h, s[p..])
  {
    hide Process4, Process1, ReadLE32;
    h', p' := Process1(h, s[p]), p + 1;
    assert s[p..][1..] == s[p + 1..];
  }

  /** XXH32_finalize: the fall-through switch on the number of bytes left, which is the
      loop of `Tail`. */
  method Finalize(h0: U32, s: seq<byte>, p0: nat) returns (r: U32)
    requires p0 <= |s| < p0 + 16
    ensures r == Avalanche(Tail(h0, s[p0..]))
  {
    hide Avalanche, Process1, Process4;
    var h, p, n := h0, p0, |s| - p0;
    if n == 12 || n == 8 || n == 4 {
      if n == 12 { h, p := StepFour(h, s, p); }
      if n >= 8 { h, p := StepFour(h, s, p); }
      h, p := StepFour(h, s, p);
    } else if n == 13 || n == 9 || n == 5 {
      if n == 13 { h, p := StepFour(h, s, p); }
      if n >= 9 { h, p := StepFour(h, s, p); }
      h, p := StepFour(h, s, p);
      h, p := StepOne(h, s, p);
    } else if n == 14 || n == 10 || n == 6 {
      if n == 14 { h, p := StepFour(h, s, p); }
      if n >= 10 { h, p := StepFour(h, s, p); }
      h, p := StepFour(h, s, p);
      h, p := StepOne(h, s, p);
      h, p := StepOne(h, s, p);
    } else {
      if n == 15 { h, p := StepFour(h, s, p); }
      if n >= 11 { h, p := StepFour(h, s, p); }
      if n >= 7 { h, p := StepFour(h, s, p); }
      if n >= 3 { h, p := StepOne(h, s, p); }
      if n >= 2 { h, p := StepOne(h, s, p); }
      if n >= 1 { h, p := StepOne(h, s, p); }
    }
    assert s[p..] == [];
    r := Avalanche(h);
  }

  /** The do-while loop over whole stripes from `p0` on. */
  method Loop(a0: Acc, s: seq<byte>, p0: nat) returns (a: Acc, p: nat)
    requires p0 + 16 <= |s|
    ensures p0 <= p <= |s| < p + 16 && (p - p0) % 16 == 0 && a == Stripes(a0, s[p0..p])
  {
    hide Round, ReadLE32;
    var limit := |s| - 16;
    var v1, v2, v3, v4 := a0.v1, a0.v2, a0.v3, a0.v4;
    p := p0;
    assert s[p0..p0] == [];
    while true
      invariant p0 <= p <= limit && (p - p0) % 16 == 0
      invariant Acc(v1, v2, v3, v4) == Stripes(a0, s[p0..p])
      decreases limit + 16 - p
    {
      StripeInside(a0, s, p0, p);
      v1 := Round(v1, ReadLE32(s, p));
      v2 := Round(v2, ReadLE32(s, p + 4));
      v3 := Round(v3, ReadLE32(s, p + 8));
      v4 := Round(v4, ReadLE32(s, p + 12));
      p := p + 16;
      if p > limit { break; }
    }
    a := Acc(v1, v2, v3, v4);
  }

  lemma StripeInside(a: Acc, s: seq<byte>, p0: nat, p: nat)
    requires p0 <= p && p + 16 <= |s| && (p - p0) % 16 == 0
    ensures Stripes(a, s[p0..p + 16]) == Stripe(Stripes(a, s[p0..p]), s, p)
  {
    hide Stripe, Stripes;
    var t := s[p0..];
    assert t[..p - p0] == s[p0..p] && t[..p - p0 + 16] == s[p0..p + 16];
    OneMoreStripe(a, t, p - p0);
    assert t[p - p0..p - p0 + 16] == s[p..p + 16];
    StripeElsewhere(Stripes(a, s[p0..p]), t, p - p0, s, p);
  }

  /** XXH32. */
  method OneShot(s: seq<byte>, seed: U32) returns (r: U32)
    ensures r == Hash(s, seed)
  {
    hide Init, Merge, Short, Add, Avalanche, Stripes, Tail;
    var h, p := Short(seed), 0;
    if |s| >= 16 {
      var a;
      a, p := Loop(Init(seed), s, 0);
      assert s[0..p] == s[..p];
      StripesOfPrefix(Init(seed), s);
      h := Merge(a);
    }
    h := Add(h, |s| % TWO32);
    r := Finalize(h, s, p);
  }

  // ----- Streaming -----

  lemma BufferGrows(total: nat, len: nat)
    requires total % 16 + len < 16
    ensures (total + len) % 16 == total % 16 + len
  {
  }

  lemma NoStripes(a: Acc, s: seq<byte>)
    requires |s| < 16
    ensures Stripes(a, s) == a
  {
  }

  /** The 32-bit length wraps around, but the first length of 16 and more is seen. */
  lemma NextLength(total: nat, len: nat)
    ensures (total % TWO32 + len) % TWO32 == (total + len) % TWO32
    ensures total >= 16 || len >= 16 || (total + len) % TWO32 >= 16 <==> total + len >= 16
  {
  }

  /** XXH32_state_t: `data` is what was hashed since the reset. */
  class State {
    var totalLen: nat
    var largeLen: bool
    var v: Acc
    const mem: array<byte>
    var memsize: nat
    ghost var seed: U32
    ghost var data: seq<byte>

    /** `d` is consumed but for its last incomplete stripe, which is in the buffer. */
    ghost predicate Buffered(d: seq<byte>)
      reads `memsize, `v, `seed, mem
    {
      && mem.Length == 16 && memsize == |d| % 16
      && mem[..memsize] == d[|d| - memsize..] && v == Stripes(Init(seed), d[..|d| - memsize])
    }

    ghost predicate Counted()
      reads `totalLen, `largeLen, `data
    {
      totalLen == |data| % TWO32 && (largeLen <==> |data| >= 16)
    }

    ghost predicate Valid()
      reads this, mem
    {
      Buffered(data) && Counted()
    }

    constructor (s: U32)
      ensures Valid() && fresh(mem) && seed == s && data == []
    {
      hide Valid;
      mem := new byte[16](_ => 0);
      new;
      Start(s);
    }

    method Start(s: U32)
      requires mem.Length == 16
      modifies this
      ensures Valid() && seed == s && data == []
    {
      hide Init, Stripes, Stripe;
      NoStripes(Init(s), []);
      totalLen, largeLen, v, memsize := 0, false, Init(s), 0;
      seed, data := s, [];
      assert data[..|data| - memsize] == [] && mem[..memsize] == [];
      assert Buffered(data);
    }

    /** XXH32_reset. */
    method Reset(s: U32)
      requires Valid()
      modifies this
      ensures Valid() && seed == s && data == []
    {
      Start(s);
    }

    /** XXH32_update. */
    method Update(input: seq<byte>)
      requires Valid()
      modifies this, mem
      ensures Valid() && seed == old(seed) && data == old(data) + input
    {
      hide Valid, Stripes, Counted;
      ghost var d := data;
      CountLength(input);
      if memsize + |input| < 16 {
        Buffer(input, d);
      } else {
        var p := 0;
        if memsize != 0 {
          p := FillStripe(input, d);
        } else {
          assert (d + input)[..|d|] == d[..|d| - memsize];
        }
        if p + 16 <= |input| {
          p := ConsumeStripes(input, d, p);
        }
        KeepRest(input, d, p);
      }
    }

    /** The length wraps around; the flag for 16 bytes and more sticks. */
    method CountLength(input: seq<byte>)
      requires Valid()
      modifies this`totalLen, this`largeLen, this`data
      ensures data == old(data) + input && Counted() && Buffered(old(data))
    {
      hide Buffered;
      NextLength(|data|, |input|);
      totalLen := (totalLen + |input|) % TWO32;
      largeLen := largeLen || |input| >= 16 || totalLen >= 16;
      data := data + input;
    }

    /** A short input only extends the buffer. */
    method Buffer(input: seq<byte>, ghost d: seq<byte>)
      requires Buffered(d) && data == d + input && Counted() && memsize + |input| < 16
      modifies this`memsize, mem
      ensures Valid()
    {
      hide Init, Stripes, Counted;
      ghost var done := |d| - memsize;
      BufferGrows(|d|, |input|);
      forall i | 0 <= i < |input| { mem[memsize + i] := input[i]; }
      memsize := memsize + |input|;
      assert |data| - memsize == done;
      assert data[..done] == d[..done];
      assert mem[..memsize] == d[done..] + input == data[done..];
      assert Buffered(data);
    }

    /** Consumes the whole stripes of the input from `p0` on. */
    method ConsumeStripes(input: seq<byte>, ghost d: seq<byte>, p0: nat) returns (p: nat)
      requires p0 + 16 <= |input| && (|d| + p0) % 16 == 0 && v == Stripes(Init(seed), (d + input)[..|d| + p0])
      modifies this`v
      ensures p <= |input| < p + 16 && (|d| + p) % 16 == 0 && v == Stripes(Init(seed), (d + input)[..|d| + p])
    {
      hide Init, Stripes, Stripe;
      ghost var all := d + input;
      v, p := Loop(v, input, p0);
      assert all[..|d| + p] == all[..|d| + p0] + input[p0..p];
      StripesAppend(Init(seed), all[..|d| + p0], input[p0..p]);
    }

    /** Buffers what is left of the input. */
    method KeepRest(input: seq<byte>, ghost d: seq<byte>, p: nat)
      requires mem.Length == 16 && memsize == 0 && p <= |input| < p + 16 && (|d| + p) % 16 == 0
      requires data == d + input && v == Stripes(Init(seed), data[..|d| + p]) && Counted()
      modifies this`memsize, mem
      ensures Valid()
    {
      hide Init, Stripes, Stripe, Counted;
      if p < |input| {
        forall i | 0 <= i < |input| - p { mem[i] := input[p + i]; }
        memsize := |input| - p;
      }
      assert memsize == |data| % 16;
      assert mem[..memsize] == input[p..] == data[|data| - memsize..];
    }

    /** Completes the buffered stripe and consumes it. */
    method FillStripe(input: seq<byte>, ghost d: seq<byte>) returns (p: nat)
      requires Buffered(d) && 0 < memsize && 16 <= memsize + |input|
      modifies this`v, this`memsize, mem
      ensures p == 16 - old(memsize) && memsize == 0 && (|d| + p) % 16 == 0
      ensures v == Stripes(Init(seed), (d + input)[..|d| + p])
    {
      hide Init, Stripes, Stripe;
      p := 16 - memsize;
      ghost var from, all := |d| - memsize, d + input;
      forall i | 0 <= i < p { mem[memsize + i] := input[i]; }
      assert mem[..] == d[from..] + input[..p];
      assert all[from..from + 16] == mem[..];
      assert all[..from] == d[..from];
      v := Stripe(v, mem[..], 0);
      OneMoreStripe(Init(seed), all, from);
      assert mem[..][0..16] == mem[..];
      StripeElsewhere(Stripes(Init(seed), d[..from]), mem[..], 0, all, from);
      memsize := 0;
    }

    /** XXH32_digest: the one-shot hash of everything since the reset. */
    method Digest() returns (r: U32)
      requires Valid()
      ensures r == Hash(data, seed)
    {
      hide Init, Merge, Short, Add, Avalanche, Stripes, Tail;
      var h := if largeLen then Merge(v) else Short(v.v3);
      StripesOfPrefix(Init(seed), data);
      if !largeLen {
        SeedKept(seed, data);
      }
      h := Add(h, totalLen);
      r := Finalize(h, mem[..memsize], 0);
      assert mem[..memsize][0..] == data[|data| - memsize..];
    }
  }

  /** Before the first stripe the third accumulator still holds the seed. */
  lemma SeedKept(seed: U32, s: seq<byte>)
    requires |s| < 16
    ensures Stripes(Init(seed), s).v3 == seed
  {
  }

  /** However the input is cut, streaming gives the one-shot hash of the whole. */
  method HashParts(parts: seq<seq<byte>>, seed: U32) returns (r: U32)
    ensures r == Hash(Concat(parts), seed)
  {
    hide Hash, Stripes, State.Valid;
    var state := new State(seed);
    for i := 0 to |parts|
      invariant state.Valid() && fresh(state) && fresh(state.mem)
      invariant state.seed == seed && state.data == Concat(parts[..i])
    {
      state.Update(parts[i]);
      assert parts[..i + 1][..i] == parts[..i];
    }
    assert parts[..|parts|] == parts;
    r := state.Digest();
  }
}
