/** XXH64: the one-shot hash, the streaming state, and why they agree.

    `Hash` is the specification: whole stripes of 32 bytes first, then the remaining
    bytes eight, four and one at a time.  Memory is read as little-endian.
 */
module Xxh64 {
  import opened Basics
  import opened BlockFormat
  import opened HashWords

  type U64 = x: nat | x < TWO64

  const PRIME64_1: U64 := 11400714785074694791
  const PRIME64_2: U64 := 14029467366897019727
  const PRIME64_3: U64 := 1609587929392839161
  const PRIME64_4: U64 := 9650029242287828579
  const PRIME64_5: U64 := 2870177450012600261

  datatype Acc = Acc(v1: U64, v2: U64, v3: U64, v4: U64)

  // ----- Arithmetic on words -----

  function Add(a: U64, b: U64): U64 { (a + b) % TWO64 }

  function Mul(a: U64, b: U64): U64 { (a * b) % TWO64 }

  function ToWord(b: bv64): U64 { b as nat }

  function Xor(a: U64, b: U64): U64 { ToWord((a as bv64) ^ (b as bv64)) }

  /** `a` and `a` shifted to the right by `n` places, where `down` is 2^n. */
  function XorShifted(a: U64, down: nat): U64
    requires 1 < down
  {
    Xor(a, (a / down) % TWO64)
  }

  /** Rotates to the left by `n` places, where `up` is 2^n and `down` is 2^(64 - n). */
  function RotateLeft(a: U64, up: nat, down: nat): U64
    requires 0 < down
  {
    (a * up + a / down) % TWO64
  }

  function Round(acc: U64, input: U64): U64 {
    Mul(RotateLeft(Add(acc, Mul(input, PRIME64_2)), 0x8000_0000, 0x2_0000_0000), PRIME64_1)
  }

  function MergeRound(acc: U64, v: U64): U64 {
    Add(Mul(Xor(acc, Round(0, v)), PRIME64_1), PRIME64_4)
  }

  function Avalanche(h: U64): U64 {
    var h1 := Mul(XorShifted(h, 0x2_0000_0000), PRIME64_2);
    var h2 := Mul(XorShifted(h1, 0x2000_0000), PRIME64_3);
    XorShifted(h2, 0x1_0000_0000)
  }

  function Word(b0: byte, b1: byte, b2: byte, b3: byte): (w: nat)
    ensures w < 0x1_0000_0000
  {
    b0 as nat + 0x100 * (b1 as nat + 0x100 * (b2 as nat + 0x100 * b3 as nat))
  }

  function ReadLE32(s: seq<byte>, p: nat): (w: nat)
    requires p + 4 <= |s|
    ensures w < 0x1_0000_0000
  {
    Word(s[p], s[p + 1], s[p + 2], s[p + 3])
  }

  function ReadLE64(s: seq<byte>, p: nat): U64
    requires p + 8 <= |s|
  {
    ReadLE32(s, p) + 0x1_0000_0000 * ReadLE32(s, p + 4)
  }

  function Process1(h: U64, b: byte): U64 {
    Mul(RotateLeft(Xor(h, Mul(b as nat, PRIME64_5)), 0x800, 0x20_0000_0000_0000), PRIME64_1)
  }

  function Process4(h: U64, w: U64): U64 {
    Add(Mul(RotateLeft(Xor(h, Mul(w, PRIME64_1)), 0x80_0000, 0x200_0000_0000), PRIME64_2), PRIME64_3)
  }

  function Process8(h: U64, w: U64): U64 {
    Add(Mul(RotateLeft(Xor(h, Round(0, w)), 0x800_0000, 0x20_0000_0000), PRIME64_1), PRIME64_4)
  }

  function Init(seed: U64): Acc {
    Acc(Add(Add(seed, PRIME64_1), PRIME64_2), Add(seed, PRIME64_2), seed, (seed - PRIME64_1) % TWO64)
  }

  function Merge(a: Acc): U64 {
    var h := Add(Add(Add(RotateLeft(a.v1, 0x2, 0x8000_0000_0000_0000), RotateLeft(a.v2, 0x80, 0x200_0000_0000_0000)), RotateLeft(a.v3, 0x1000, 0x10_0000_0000_0000)), RotateLeft(a.v4, 0x4_0000, 0x4000_0000_0000));
    MergeRound(MergeRound(MergeRound(MergeRound(h, a.v1), a.v2), a.v3), a.v4)
  }

  function Short(seed: U64): U64 {
    Add(seed, PRIME64_5)
  }

  function Stripe(a: Acc, s: seq<byte>, p: nat): Acc
    requires p + 32 <= |s|
  {
    Acc(Round(a.v1, ReadLE64(s, p)), Round(a.v2, ReadLE64(s, p + 8)),
        Round(a.v3, ReadLE64(s, p + 16)), Round(a.v4, ReadLE64(s, p + 24)))
  }

  // ----- Specification -----

  /** All whole stripes of `s`. */
  function Stripes(a: Acc, s: seq<byte>): Acc
    decreases |s|
  {
    if |s| < 32 then a else Stripes(Stripe(a, s, 0), s[32..])
  }

  /** Words of eight bytes while they last, then one of four, then bytes. */
  function Tail(h: U64, s: seq<byte>): U64
    decreases |s|
  {
    if |s| >= 8 then Tail(Process8(h, ReadLE64(s, 0)), s[8..])
    else if |s| >= 4 then Tail(Process4(h, ReadLE32(s, 0)), s[4..])
    else if |s| >= 1 then Tail(Process1(h, s[0]), s[1..])
    else h
  }

  /** The length enters modulo 2^64. */
  function Hash(s: seq<byte>, seed: U64): U64 {
    var h := if |s| >= 32 then Merge(Stripes(Init(seed), s)) else Short(seed);
    Avalanche(Tail(Add(h, |s| % TWO64), s[|s| - |s| % 32..]))
  }

  /** Only the 32 bytes read matter. */
  lemma StripeElsewhere(a: Acc, s: seq<byte>, p: nat, t: seq<byte>, q: nat)
    requires p + 32 <= |s| && q + 32 <= |t| && s[p..p + 32] == t[q..q + 32]
    ensures Stripe(a, s, p) == Stripe(a, t, q)
  {
    hide Round, ReadLE64;
    WordElsewhere(s, p, t, q, 0);
    WordElsewhere(s, p, t, q, 8);
    WordElsewhere(s, p, t, q, 16);
    WordElsewhere(s, p, t, q, 24);
  }

  lemma WordElsewhere(s: seq<byte>, p: nat, t: seq<byte>, q: nat, i: nat)
    requires p + 32 <= |s| && q + 32 <= |t| && s[p..p + 32] == t[q..q + 32] && i + 8 <= 32
    ensures ReadLE64(s, p + i) == ReadLE64(t, q + i)
  {
    hide Word;
    var x, y := s[p..p + 32], t[q..q + 32];
    assert x[i] == y[i] && x[i + 1] == y[i + 1] && x[i + 2] == y[i + 2] && x[i + 3] == y[i + 3];
    assert x[i + 4] == y[i + 4] && x[i + 5] == y[i + 5] && x[i + 6] == y[i + 6] && x[i + 7] == y[i + 7];
  }

  lemma {:induction false} StripesAppend(a: Acc, s: seq<byte>, t: seq<byte>)
    requires |s| % 32 == 0
    ensures Stripes(a, s + t) == Stripes(Stripes(a, s), t)
    decreases |s|
  {
    hide Stripe;
    if |s| == 0 {
      assert s + t == t;
    } else {
      assert (s + t)[32..] == s[32..] + t;
      assert (s + t)[0..32] == s[0..32];
      StripeElsewhere(a, s + t, 0, s, 0);
      StripesAppend(Stripe(a, s, 0), s[32..], t);
    }
  }

  lemma OneMoreStripe(a: Acc, s: seq<byte>, p: nat)
    requires p % 32 == 0 && p + 32 <= |s|
    ensures Stripes(a, s[..p + 32]) == Stripe(Stripes(a, s[..p]), s, p)
  {
    hide Stripe;
    var t := s[p..p + 32];
    assert s[..p + 32] == s[..p] + t;
    StripesAppend(a, s[..p], t);
    assert t[0..32] == t;
    StripeElsewhere(Stripes(a, s[..p]), s, p, t, 0);
    assert Stripes(Stripe(Stripes(a, s[..p]), t, 0), t[32..]) == Stripe(Stripes(a, s[..p]), t, 0);
  }

  /** A remainder of less than a stripe changes nothing. */
  lemma StripesOfPrefix(a: Acc, s: seq<byte>)
    ensures Stripes(a, s) == Stripes(a, s[..|s| - |s| % 32])
  {
    var n := |s| - |s| % 32;
    assert s == s[..n] + s[n..];
    StripesAppend(a, s[..n], s[n..]);
  }

  // ----- One-shot hash -----

  method StepEight(h: U64, s: seq<byte>, p: nat) returns (h': U64, p': nat)
    requires p + 8 <= |s|
    ensures p' == p + 8 && Tail(h', s[p'..]) == Tail(h, s[p..])
  {
    hide Process8, Process4, Process1, ReadLE64, ReadLE32;
    h', p' := Process8(h, ReadLE64(s, p)), p + 8;
    WordInTail(s, p);
    assert s[p..][8..] == s[p + 8..];
  }

  method StepFour(h: U64, s: seq<byte>, p: nat) returns (h': U64, p': nat)
    requires p + 4 <= |s| < p + 8
    ensures p' == p + 4 && Tail(h', s[p'..]) == Tail(h, s[p..])
  {
    hide Process8, Process4, Process1, ReadLE64, ReadLE32;
    h', p' := Process4(h, ReadLE32(s, p)), p + 4;
    WordInTail(s, p);
    assert s[p..][4..] == s[p + 4..];
  }

  lemma WordInTail(s: seq<byte>, p: nat)
    ensures p + 4 <= |s| ==> ReadLE32(s, p) == ReadLE32(s[p..], 0)
    ensures p + 8 <= |s| ==> ReadLE64(s, p) == ReadLE64(s[p..], 0)
  {
    hide Word;
  }

  method StepOne(h: U64, s: seq<byte>, p: nat) returns (h': U64, p': nat)
    requires p < |s| < p + 4
    ensures p' == p + 1 && Tail(h', s[p'..]) == Tail(h, s[p..])
  {
    hide Process8, Process4, Process1, ReadLE64, ReadLE32;
    h', p' := Process1(h, s[p]), p + 1;
    assert s[p..][1..] == s[p + 1..];
  }

  /** The words of eight that a case falls through. */
  method StepEights(h0: U64, s: seq<byte>, p0: nat) returns (h: U64, p: nat)
    requires p0 <= |s| < p0 + 32
    ensures p <= |s| < p + 8 && (|s| - p) % 8 == (|s| - p0) % 8 && Tail(h, s[p..]) == Tail(h0, s[p0..])
  {
    hide Tail;
    var n := |s| - p0;
    h, p := h0, p0;
    if n >= 24 { h, p := StepEight(h, s, p); }
    if n >= 16 { h, p := StepEight(h, s, p); }
    if n >= 8 { h, p := StepEight(h, s, p); }
  }

  /** XXH64_finalize: the fall-through switch on the number of bytes left, which is the
      loop of `Tail`. */
  method Finalize(h0: U64, s: seq<byte>, p0: nat) returns (r: U64)
    requires p0 <= |s| < p0 + 32
    ensures r == Avalanche(Tail(h0, s[p0..]))
  {
    hide Avalanche, Tail;
    var n := (|s| - p0) % 8;
    var h, p := StepEights(h0, s, p0);
    if n == 4 {
      h, p := StepFour(h, s, p);
    } else if n == 1 {
      h, p := StepOne(h, s, p);
    } else if n == 5 {
      h, p := StepFour(h, s, p);
      h, p := StepOne(h, s, p);
    } else if n == 2 {
      h, p := StepOne(h, s, p);
      h, p := StepOne(h, s, p);
    } else if n == 6 {
      h, p := StepFour(h, s, p);
      h, p := StepOne(h, s, p);
      h, p := StepOne(h, s, p);
    } else if n == 3 {
      h, p := StepOne(h, s, p);
      h, p := StepOne(h, s, p);
      h, p := StepOne(h, s, p);
    } else if n == 7 {
      h, p := StepFour(h, s, p);
      h, p := StepOne(h, s, p);
      h, p := StepOne(h, s, p);
      h, p := StepOne(h, s, p);
    }
    EmptyTail(h, s, p);
    r := Avalanche(h);
  }

  lemma EmptyTail(h: U64, s: seq<byte>, p: nat)
    requires p == |s|
    ensures Tail(h, s[p..]) == h
  {
  }

  /** The do-while loop over whole stripes from `p0` on. */
  method Loop(a0: Acc, s: seq<byte>, p0: nat) returns (a: Acc, p: nat)
    requires p0 + 32 <= |s|
    ensures p0 <= p <= |s| < p + 32 && (p - p0) % 32 == 0 && a == Stripes(a0, s[p0..p])
  {
    hide Round, ReadLE64;
    var limit := |s| - 32;
    var v1, v2, v3, v4 := a0.v1, a0.v2, a0.v3, a0.v4;
    p := p0;
    assert s[p0..p0] == [];
    while true
      invariant p0 <= p <= limit && (p - p0) % 32 == 0
      invariant Acc(v1, v2, v3, v4) == Stripes(a0, s[p0..p])
      decreases limit + 32 - p
    {
      StripeInside(a0, s, p0, p);
      v1 := Round(v1, ReadLE64(s, p));
      v2 := Round(v2, ReadLE64(s, p + 8));
      v3 := Round(v3, ReadLE64(s, p + 16));
      v4 := Round(v4, ReadLE64(s, p + 24));
      p := p + 32;
      if p > limit { break; }
    }
    a := Acc(v1, v2, v3, v4);
  }

  lemma StripeInside(a: Acc, s: seq<byte>, p0: nat, p: nat)
    requires p0 <= p && p + 32 <= |s| && (p - p0) % 32 == 0
    ensures Stripes(a, s[p0..p + 32]) == Stripe(Stripes(a, s[p0..p]), s, p)
  {
    hide Stripe, Stripes;
    var t := s[p0..];
    assert t[..p - p0] == s[p0..p] && t[..p - p0 + 32] == s[p0..p + 32];
    OneMoreStripe(a, t, p - p0);
    assert t[p - p0..p - p0 + 32] == s[p..p + 32];
    StripeElsewhere(Stripes(a, s[p0..p]), t, p - p0, s, p);
  }

  /** XXH64. */
  method OneShot(s: seq<byte>, seed: U64) returns (r: U64)
    ensures r == Hash(s, seed)
  {
    hide Init, Merge, Short, Add, Avalanche, Stripes, Tail;
    var h, p := Short(seed), 0;
    if |s| >= 32 {
      var a;
      a, p := Loop(Init(seed), s, 0);
      assert s[0..p] == s[..p];
      StripesOfPrefix(Init(seed), s);
      h := Merge(a);
    }
    h := Add(h, |s| % TWO64);
    r := Finalize(h, s, p);
  }

  // ----- Streaming -----

  lemma BufferGrows(total: nat, len: nat)
    requires total % 32 + len < 32
    ensures (total + len) % 32 == total % 32 + len
  {
  }

  lemma NoStripes(a: Acc, s: seq<byte>)
    requires |s| < 32
    ensures Stripes(a, s) == a
  {
  }

  /** The 64-bit length wraps around. */
  lemma NextLength(total: nat, len: nat)
    ensures (total % TWO64 + len) % TWO64 == (total + len) % TWO64
  {
  }

  /** XXH64_state_t: `data` is what was hashed since the reset. */
  class State {
    var totalLen: nat
    var v: Acc
    const mem: array<byte>
    var memsize: nat
    ghost var seed: U64
    ghost var data: seq<byte>

    /** `d` is consumed but for its last incomplete stripe, which is in the buffer. */
    ghost predicate Buffered(d: seq<byte>)
      reads `memsize, `v, `seed, mem
    {
      && mem.Length == 32 && memsize == |d| % 32
      && mem[..memsize] == d[|d| - memsize..] && v == Stripes(Init(seed), d[..|d| - memsize])
    }

    ghost predicate Counted()
      reads `totalLen, `data
    {
      totalLen == |data| % TWO64
    }

    ghost predicate Valid()
      reads this, mem
    {
      Buffered(data) && Counted()
    }

    constructor (s: U64)
      ensures Valid() && fresh(mem) && seed == s && data == []
    {
      hide Valid;
      mem := new byte[32](_ => 0);
      new;
      Start(s);
    }

    method Start(s: U64)
      requires mem.Length == 32
      modifies this
      ensures Valid() && seed == s && data == []
    {
      hide Init, Stripes, Stripe;
      NoStripes(Init(s), []);
      totalLen, v, memsize := 0, Init(s), 0;
      seed, data := s, [];
      assert data[..|data| - memsize] == [] && mem[..memsize] == [];
      assert Buffered(data);
    }

    /** XXH64_reset. */
    method Reset(s: U64)
      requires Valid()
      modifies this
      ensures Valid() && seed == s && data == []
    {
      Start(s);
    }

    /** XXH64_update. */
    method Update(input: seq<byte>)
      requires Valid()
      modifies this, mem
      ensures Valid() && seed == old(seed) && data == old(data) + input
    {
      hide Valid, Stripes, Counted;
      ghost var d := data;
      CountLength(input);
      if memsize + |input| < 32 {
        Buffer(input, d);
      } else {
        var p := 0;
        if memsize != 0 {
          p := FillStripe(input, d);
        } else {
          assert (d + input)[..|d|] == d[..|d| - memsize];
        }
        if p + 32 <= |input| {
          p := ConsumeStripes(input, d, p);
        }
        KeepRest(input, d, p);
      }
    }

    /** The length wraps around. */
    method CountLength(input: seq<byte>)
      requires Valid()
      modifies this`totalLen, this`data
      ensures data == old(data) + input && Counted() && Buffered(old(data))
    {
      hide Buffered;
      NextLength(|data|, |input|);
      totalLen := (totalLen + |input|) % TWO64;
      data := data + input;
    }

    /** A short input only extends the buffer. */
    method Buffer(input: seq<byte>, ghost d: seq<byte>)
      requires Buffered(d) && data == d + input && Counted() && memsize + |input| < 32
      modifies this`memsize, mem
      ensures Valid()
    {
      hide Init, Stripes, Counted;
      ghost var done := |d| - memsize;
      BufferGrows(|d|, |input|);
      forall i | 0 <= i < |input| { mem[memsize + i] := input[i]; }
      memsize := memsize + |input|;
      assert |data| - memsize == done;
      assert data[..done] == d[..done];
      assert mem[..memsize] == d[done..] + input == data[done..];
      assert Buffered(data);
    }

    /** Consumes the whole stripes of the input from `p0` on. */
    method ConsumeStripes(input: seq<byte>, ghost d: seq<byte>, p0: nat) returns (p: nat)
      requires p0 + 32 <= |input| && (|d| + p0) % 32 == 0 && v == Stripes(Init(seed), (d + input)[..|d| + p0])
      modifies this`v
      ensures p <= |input| < p + 32 && (|d| + p) % 32 == 0 && v == Stripes(Init(seed), (d + input)[..|d| + p])
    {
      hide Init, Stripes, Stripe;
      ghost var all := d + input;
      v, p := Loop(v, input, p0);
      assert all[..|d| + p] == all[..|d| + p0] + input[p0..p];
      StripesAppend(Init(seed), all[..|d| + p0], input[p0..p]);
    }

    /** Buffers what is left of the input. */
    method KeepRest(input: seq<byte>, ghost d: seq<byte>, p: nat)
      requires mem.Length == 32 && memsize == 0 && p <= |input| < p + 32 && (|d| + p) % 32 == 0
      requires data == d + input && v == Stripes(Init(seed), data[..|d| + p]) && Counted()
      modifies this`memsize, mem
      ensures Valid()
    {
      hide Init, Stripes, Stripe, Counted;
      if p < |input| {
        forall i | 0 <= i < |input| - p { mem[i] := input[p + i]; }
        memsize := |input| - p;
      }
      assert memsize == |data| % 32;
      assert mem[..memsize] == input[p..] == data[|data| - memsize..];
    }

    /** Completes the buffered stripe and consumes it. */
    method FillStripe(input: seq<byte>, ghost d: seq<byte>) returns (p: nat)
      requires Buffered(d) && 0 < memsize && 32 <= memsize + |input|
      modifies this`v, this`memsize, mem
      ensures p == 32 - old(memsize) && memsize == 0 && (|d| + p) % 32 == 0
      ensures v == Stripes(Init(seed), (d + input)[..|d| + p])
    {
      hide Init, Stripes, Stripe;
      p := 32 - memsize;
      ghost var from, all := |d| - memsize, d + input;
      forall i | 0 <= i < p { mem[memsize + i] := input[i]; }
      assert mem[..] == d[from..] + input[..p];
      assert all[from..from + 32] == mem[..];
      assert all[..from] == d[..from];
      v := Stripe(v, mem[..], 0);
      OneMoreStripe(Init(seed), all, from);
      assert mem[..][0..32] == mem[..];
      StripeElsewhere(Stripes(Init(seed), d[..from]), mem[..], 0, all, from);
      memsize := 0;
    }

    /** XXH64_digest: the one-shot hash of everything since the reset, as long as the
        wrapped length tells whether there was a stripe; below 2^64 bytes, what a single
        call can take, it does. */
    method Digest() returns (r: U64)
      requires Valid()
      ensures |data| < 32 || |data| % TWO64 >= 32 ==> r == Hash(data, seed)
    {
      hide Init, Merge, Short, Add, Avalanche, Stripes, Tail;
      var h := if totalLen >= 32 then Merge(v) else Short(v.v3);
      StripesOfPrefix(Init(seed), data);
      if |data| < 32 {
        SeedKept(seed, data);
      }
      h := Add(h, totalLen);
      Remainder(|data|);
      WholeOf(mem[..memsize]);
      r := Finalize(h, mem[..totalLen % 32], 0);
    }
  }

  lemma WholeOf(s: seq<byte>)
    ensures s[0..] == s
  {
  }

  lemma Remainder(total: nat)
    ensures total % TWO64 % 32 == total % 32
    ensures total < TWO64 ==> total % TWO64 == total
  {
    var q, r := total / TWO64, total % TWO64;
    assert total == 32 * (0x0800_0000_0000_0000 * q) + r;
  }

  /** Before the first stripe the third accumulator still holds the seed. */
  lemma SeedKept(seed: U64, s: seq<byte>)
    requires |s| < 32
    ensures Stripes(Init(seed), s).v3 == seed
  {
  }

  /** However the input is cut, streaming gives the one-shot hash of the whole. */
  method HashParts(parts: seq<seq<byte>>, seed: U64) returns (r: U64)
    ensures |Concat(parts)| < TWO64 ==> r == Hash(Concat(parts), seed)
  {
    hide Hash, Stripes, State.Valid;
    var state := new State(seed);
    for i := 0 to |parts|
      invariant state.Valid() && fresh(state) && fresh(state.mem)
      invariant state.seed == seed && state.data == Concat(parts[..i])
    {
      state.Update(parts[i]);
      assert parts[..i + 1][..i] == parts[..i];
    }
    assert parts[..|parts|] == parts;
    Remainder(|Concat(parts)|);
    r := state.Digest();
  }
}
