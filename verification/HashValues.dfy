/** Published values of the two hashes.  They pin every constant and every step; each step of
    a computation is given by the values of its parts.

    The inputs are the empty one, the 39 bytes of "Nobody inspects the spammish repetition",
    and the empty one and 14 bytes with the seed of the xxHash self-test.
 */
module HashValues {
  import opened BlockFormat
  import H32 = Xxh32
  import H64 = Xxh64

  const SPAM1: seq<byte> := [78, 111, 98, 111, 100, 121, 32, 105, 110, 115, 112, 101, 99, 116, 115, 32]
  const SPAM2: seq<byte> := [116, 104, 101, 32, 115, 112, 97, 109, 109, 105, 115, 104, 32, 114, 101, 112]
  const SPAM3: seq<byte> := [101, 116, 105, 116, 105, 111, 110]
  const SELF_TEST: seq<byte> := [158, 255, 31, 75, 94, 83, 47, 221, 181, 84, 77, 42, 149, 43]
  const SEED: nat := 0x9E37_79B1
  const DESCRIPTOR: seq<byte> := [0x64, 0x40]

  // ----- XXH32, step by step -----

  lemma RoundIs32(v: H32.U32, w: H32.U32, m: H32.U32, s: H32.U32, t: H32.U32, r: H32.U32)
    requires H32.Mul(w, 2246822519) == m && H32.Add(v, m) == s && H32.RotateLeft(s, 0x2000, 0x8_0000) == t && H32.Mul(t, 2654435761) == r
    ensures H32.Round(v, w) == r
  {
  }

  lemma StripeIs32(a: H32.Acc, x: seq<byte>, w1: H32.U32, w2: H32.U32, w3: H32.U32, w4: H32.U32)
    requires |x| == 16 && H32.ReadLE32(x, 0) == w1 && H32.ReadLE32(x, 4) == w2 && H32.ReadLE32(x, 8) == w3 && H32.ReadLE32(x, 12) == w4
    ensures H32.Stripes(a, x) == H32.Acc(H32.Round(a.v1, w1), H32.Round(a.v2, w2), H32.Round(a.v3, w3), H32.Round(a.v4, w4))
  {
    hide H32.Round, H32.ReadLE32;
    H32.NoStripes(H32.Stripe(a, x, 0), x[16..]);
  }

  lemma MergeIs32(a: H32.Acc, r1: H32.U32, r2: H32.U32, r3: H32.U32, r4: H32.U32, h: H32.U32)
    requires H32.RotateLeft(a.v1, 2, 0x8000_0000) == r1 && H32.RotateLeft(a.v2, 0x80, 0x200_0000) == r2
    requires H32.RotateLeft(a.v3, 0x1000, 0x10_0000) == r3 && H32.RotateLeft(a.v4, 0x4_0000, 0x4000) == r4
    requires H32.Add(H32.Add(H32.Add(r1, r2), r3), r4) == h
    ensures H32.Merge(a) == h
  {
    hide H32.RotateLeft, H32.Add;
  }

  /** Four bytes of the rest, as the word `w`. */
  lemma WordIs32(h: H32.U32, x: seq<byte>, rest: seq<byte>, w: H32.U32, m: H32.U32, s: H32.U32, t: H32.U32, r: H32.U32)
    requires |x| == 4 && H32.ReadLE32(x, 0) == w
    requires H32.Mul(w, 3266489917) == m && H32.Add(h, m) == s && H32.RotateLeft(s, 0x2_0000, 0x8000) == t && H32.Mul(t, 668265263) == r
    ensures H32.Tail(h, x + rest) == H32.Tail(r, rest)
  {
    hide H32.Mul, H32.Add, H32.RotateLeft, H32.Process1;
    assert (x + rest)[4..] == rest && H32.ReadLE32(x + rest, 0) == H32.ReadLE32(x, 0);
  }

  /** One of the last three bytes. */
  lemma ByteIs32(h: H32.U32, x: byte, rest: seq<byte>, m: H32.U32, s: H32.U32, t: H32.U32, r: H32.U32)
    requires |rest| < 3
    requires H32.Mul(x as nat, 374761393) == m && H32.Add(h, m) == s && H32.RotateLeft(s, 0x800, 0x20_0000) == t && H32.Mul(t, 2654435761) == r
    ensures H32.Tail(h, [x] + rest) == H32.Tail(r, rest)
  {
    hide H32.Mul, H32.Add, H32.RotateLeft, H32.Process4;
    assert ([x] + rest)[1..] == rest;
  }

  lemma EmptyTail32(h: H32.U32)
    ensures H32.Tail(h, []) == h
  {
  }

  lemma AvalancheIs32(h: H32.U32, s1: H32.U32, x1: H32.U32, h1: H32.U32, s2: H32.U32, x2: H32.U32, h2: H32.U32, s3: H32.U32, r: H32.U32)
    requires h / 0x8000 == s1 && H32.Xor(h, s1) == x1 && H32.Mul(x1, 2246822519) == h1
    requires h1 / 0x2000 == s2 && H32.Xor(h1, s2) == x2 && H32.Mul(x2, 3266489917) == h2
    requires h2 / 0x1_0000 == s3 && H32.Xor(h2, s3) == r
    ensures H32.Avalanche(h) == r
  {
    hide H32.Xor, H32.Mul;
  }

  lemma HashOfParts32(x: seq<byte>, rest: seq<byte>, seed: H32.U32)
    requires (|x| == 16 || |x| == 32) && |rest| < 8
    ensures H32.Hash(x + rest, seed) == H32.Avalanche(H32.Tail(H32.Add(H32.Merge(H32.Stripes(H32.Init(seed), x)),
        |x| + |rest|), rest))
  {
    hide H32.Avalanche, H32.Tail, H32.Merge, H32.Init, H32.Stripes, H32.Add;
    H32.StripesAppend(H32.Init(seed), x, rest);
    H32.NoStripes(H32.Stripes(H32.Init(seed), x), rest);
    RestOf32(x, rest);
  }

  lemma RestOf32(x: seq<byte>, rest: seq<byte>)
    requires (|x| == 16 || |x| == 32) && |rest| < 8
    ensures var s := x + rest; 16 <= |s| && |s| % 16 == |rest| && s[|s| - |rest|..] == rest
  {
  }

  lemma HashOfShort32(x: seq<byte>, seed: H32.U32)
    requires |x| < 16
    ensures H32.Hash(x, seed) == H32.Avalanche(H32.Tail(H32.Add(H32.Short(seed), |x|), x))
  {
    hide H32.Avalanche, H32.Tail, H32.Merge, H32.Init, H32.Stripe;
    assert x[0..] == x;
  }

  // ----- XXH64, step by step -----

  lemma RoundIs64(v: H64.U64, w: H64.U64, m: H64.U64, s: H64.U64, t: H64.U64, r: H64.U64)
    requires H64.Mul(w, 14029467366897019727) == m && H64.Add(v, m) == s && H64.RotateLeft(s, 0x8000_0000, 0x2_0000_0000) == t
    requires H64.Mul(t, 11400714785074694791) == r
    ensures H64.Round(v, w) == r
  {
  }

  lemma StripeIs64(a: H64.Acc, x: seq<byte>, w1: H64.U64, w2: H64.U64, w3: H64.U64, w4: H64.U64)
    requires |x| == 32 && H64.ReadLE64(x, 0) == w1 && H64.ReadLE64(x, 8) == w2 && H64.ReadLE64(x, 16) == w3 && H64.ReadLE64(x, 24) == w4
    ensures H64.Stripes(a, x) == H64.Acc(H64.Round(a.v1, w1), H64.Round(a.v2, w2), H64.Round(a.v3, w3), H64.Round(a.v4, w4))
  {
    hide H64.Round, H64.ReadLE64;
    H64.NoStripes(H64.Stripe(a, x, 0), x[32..]);
  }

  lemma MergeRoundIs64(acc: H64.U64, v: H64.U64, r: H64.U64, x: H64.U64, m: H64.U64, o: H64.U64)
    requires H64.Round(0, v) == r && H64.Xor(acc, r) == x && H64.Mul(x, 11400714785074694791) == m && H64.Add(m, 9650029242287828579) == o
    ensures H64.MergeRound(acc, v) == o
  {
    hide H64.Round, H64.Xor, H64.Mul, H64.Add;
  }

  lemma MergeIs64(a: H64.Acc, r1: H64.U64, r2: H64.U64, r3: H64.U64, r4: H64.U64, h: H64.U64,
                  o1: H64.U64, o2: H64.U64, o3: H64.U64, o4: H64.U64)
    requires H64.RotateLeft(a.v1, 2, 0x8000_0000_0000_0000) == r1 && H64.RotateLeft(a.v2, 0x80, 0x200_0000_0000_0000) == r2
    requires H64.RotateLeft(a.v3, 0x1000, 0x10_0000_0000_0000) == r3 && H64.RotateLeft(a.v4, 0x4_0000, 0x4000_0000_0000) == r4
    requires H64.Add(H64.Add(H64.Add(r1, r2), r3), r4) == h
    requires H64.MergeRound(h, a.v1) == o1 && H64.MergeRound(o1, a.v2) == o2 && H64.MergeRound(o2, a.v3) == o3 && H64.MergeRound(o3, a.v4) == o4
    ensures H64.Merge(a) == o4
  {
    hide H64.RotateLeft, H64.Add, H64.MergeRound;
  }

  /** Eight bytes of the rest, as the word `w`. */
  lemma LongIs64(h: H64.U64, x: seq<byte>, rest: seq<byte>, w: H64.U64, r: H64.U64, y: H64.U64, t: H64.U64, m: H64.U64, o: H64.U64)
    requires |x| == 8 && H64.ReadLE64(x, 0) == w && H64.Round(0, w) == r && H64.Xor(h, r) == y
    requires H64.RotateLeft(y, 0x800_0000, 0x20_0000_0000) == t && H64.Mul(t, 11400714785074694791) == m && H64.Add(m, 9650029242287828579) == o
    ensures H64.Tail(h, x + rest) == H64.Tail(o, rest)
  {
    hide H64.Round, H64.Xor, H64.Mul, H64.Add, H64.RotateLeft, H64.Process4, H64.Process1;
    assert (x + rest)[8..] == rest && H64.ReadLE64(x + rest, 0) == H64.ReadLE64(x, 0);
  }

  /** Four bytes of the rest, as the word `w`. */
  lemma WordIs64(h: H64.U64, x: seq<byte>, rest: seq<byte>, w: H64.U64, m: H64.U64, y: H64.U64, t: H64.U64, m2: H64.U64, o: H64.U64)
    requires |x| == 4 && |rest| < 4 && H64.ReadLE32(x, 0) == w && H64.Mul(w, 11400714785074694791) == m && H64.Xor(h, m) == y
    requires H64.RotateLeft(y, 0x80_0000, 0x200_0000_0000) == t && H64.Mul(t, 14029467366897019727) == m2 && H64.Add(m2, 1609587929392839161) == o
    ensures H64.Tail(h, x + rest) == H64.Tail(o, rest)
  {
    hide H64.Round, H64.Xor, H64.Mul, H64.Add, H64.RotateLeft, H64.Process8, H64.Process1;
    assert (x + rest)[4..] == rest && H64.ReadLE32(x + rest, 0) == H64.ReadLE32(x, 0);
  }

  /** One of the last three bytes. */
  lemma ByteIs64(h: H64.U64, x: byte, rest: seq<byte>, m: H64.U64, y: H64.U64, t: H64.U64, r: H64.U64)
    requires |rest| < 3 && H64.Mul(x as nat, 2870177450012600261) == m && H64.Xor(h, m) == y
    requires H64.RotateLeft(y, 0x800, 0x20_0000_0000_0000) == t && H64.Mul(t, 11400714785074694791) == r
    ensures H64.Tail(h, [x] + rest) == H64.Tail(r, rest)
  {
    hide H64.Xor, H64.Mul, H64.Add, H64.RotateLeft, H64.Process8, H64.Process4;
    assert ([x] + rest)[1..] == rest;
  }

  lemma EmptyTail64(h: H64.U64)
    ensures H64.Tail(h, []) == h
  {
  }

  lemma AvalancheIs64(h: H64.U64, s1: H64.U64, x1: H64.U64, h1: H64.U64, s2: H64.U64, x2: H64.U64, h2: H64.U64, s3: H64.U64, r: H64.U64)
    requires h / 0x2_0000_0000 == s1 && H64.Xor(h, s1) == x1 && H64.Mul(x1, 14029467366897019727) == h1
    requires h1 / 0x2000_0000 == s2 && H64.Xor(h1, s2) == x2 && H64.Mul(x2, 1609587929392839161) == h2
    requires h2 / 0x1_0000_0000 == s3 && H64.Xor(h2, s3) == r
    ensures H64.Avalanche(h) == r
  {
    hide H64.Xor, H64.Mul;
  }

  lemma HashOfParts64(x: seq<byte>, rest: seq<byte>, seed: H64.U64)
    requires |x| == 32 && |rest| < 8
    ensures H64.Hash(x + rest, seed) == H64.Avalanche(H64.Tail(H64.Add(H64.Merge(H64.Stripes(H64.Init(seed), x)),
        |x| + |rest|), rest))
  {
    hide H64.Avalanche, H64.Tail, H64.Merge, H64.Init, H64.Stripes, H64.Add;
    H64.StripesAppend(H64.Init(seed), x, rest);
    H64.NoStripes(H64.Stripes(H64.Init(seed), x), rest);
    RestOf64(x, rest);
  }

  lemma RestOf64(x: seq<byte>, rest: seq<byte>)
    requires |x| == 32 && |rest| < 8
    ensures var s := x + rest; 32 <= |s| && |s| % 32 == |rest| && s[|s| - |rest|..] == rest
  {
  }

  lemma HashOfShort64(x: seq<byte>, seed: H64.U64)
    requires |x| < 32
    ensures H64.Hash(x, seed) == H64.Avalanche(H64.Tail(H64.Add(H64.Short(seed), |x|), x))
  {
    hide H64.Avalanche, H64.Tail, H64.Merge, H64.Init, H64.Stripe;
    assert x[0..] == x;
  }

  // ----- XXH32 values -----
  lemma FirstWords32()
    ensures H32.ReadLE32(SPAM1, 0) == 0x6F62_6F4E
    ensures H32.ReadLE32(SPAM1, 4) == 0x6920_7964
    ensures H32.ReadLE32(SPAM1, 8) == 0x6570_736E
    ensures H32.ReadLE32(SPAM1, 12) == 0x2073_7463
  {
  }

  lemma NextWords32()
    ensures H32.ReadLE32(SPAM2, 0) == 0x2065_6874
    ensures H32.ReadLE32(SPAM2, 4) == 0x6D61_7073
    ensures H32.ReadLE32(SPAM2, 8) == 0x6873_696D
    ensures H32.ReadLE32(SPAM2, 12) == 0x7065_7220
  {
  }

  lemma NothingXors32()
    ensures H32.Xor(0x1656_67B1, 0x0000_2CAC) == 0x1656_4B1D
    ensures H32.Xor(0x7E00_CC7B, 0x0003_F006) == 0x7E03_3C7D
    ensures H32.Xor(0x02CC_5FC9, 0x0000_02CC) == 0x02CC_5D05
  {
  }

  lemma Nothing32()
    ensures H32.Hash([], 0) == 0x02CC_5D05
  {
    hide H32.Xor, H32.Round, H32.Avalanche, H32.Tail, H32.Stripes, H32.Merge, H32.Init;
    NothingXors32();
    EmptyTail32(0x1656_67B1);
    AvalancheIs32(0x1656_67B1, 0x0000_2CAC, 0x1656_4B1D, 0x7E00_CC7B, 0x0003_F006, 0x7E03_3C7D, 0x02CC_5FC9,
        0x0000_02CC, 0x02CC_5D05);
    HashOfShort32([], 0);
  }

  lemma HeaderXors32()
    ensures H32.Xor(0x0EA8_49D8, 0x0000_1D50) == 0x0EA8_5488
    ensures H32.Xor(0xE3CA_9B38, 0x0007_1E54) == 0xE3CD_856C
    ensures H32.Xor(0x95C0_32BC, 0x0000_95C0) == 0x95C0_A77C
  {
  }

  lemma Header32()
    ensures H32.Hash(DESCRIPTOR, 0) == 0x95C0_A77C
  {
    hide H32.Xor, H32.Round, H32.Avalanche, H32.Tail, H32.Stripes, H32.Merge, H32.Init;
    HeaderXors32();
    assert DESCRIPTOR == [100] + [64];
    ByteIs32(0x1656_67B3, 100, [64], 0xB9C0_8124, 0xD016_E8D7, 0xB746_BE80, 0x1574_3680);
    assert [64] == [64] + [];
    ByteIs32(0x1574_3680, 64, [], 0x9599_EC40, 0xAB0E_22C0, 0x7116_0558, 0x0EA8_49D8);
    EmptyTail32(0x0EA8_49D8);
    AvalancheIs32(0x0EA8_49D8, 0x0000_1D50, 0x0EA8_5488, 0xE3CA_9B38, 0x0007_1E54, 0xE3CD_856C, 0x95C0_32BC,
        0x0000_95C0, 0x95C0_A77C);
    HashOfShort32(DESCRIPTOR, 0);
  }

  lemma SeededNothingXors32()
    ensures H32.Xor(0xB48D_E162, 0x0001_691B) == 0xB48C_8879
    ensures H32.Xor(0xF515_EA3F, 0x0007_A8AF) == 0xF512_4290
    ensures H32.Xor(0x36B7_BC50, 0x0000_36B7) == 0x36B7_8AE7
  {
  }

  lemma SeededNothing32()
    ensures H32.Hash([], SEED) == 0x36B7_8AE7
  {
    hide H32.Xor, H32.Round, H32.Avalanche, H32.Tail, H32.Stripes, H32.Merge, H32.Init;
    SeededNothingXors32();
    EmptyTail32(0xB48D_E162);
    AvalancheIs32(0xB48D_E162, 0x0001_691B, 0xB48C_8879, 0xF515_EA3F, 0x0007_A8AF, 0xF512_4290, 0x36B7_BC50,
        0x0000_36B7, 0x36B7_8AE7);
    HashOfShort32([], SEED);
  }

  lemma SentenceXors32()
    ensures H32.Xor(0xB3A7_011B, 0x0001_674E) == 0xB3A6_6655
    ensures H32.Xor(0xE81F_A383, 0x0007_40FD) == 0xE818_E37E
    ensures H32.Xor(0xE229_D906, 0x0000_E229) == 0xE229_3B2F
  {
  }

  lemma SentenceStripes32()
    ensures H32.Stripes(H32.Init(0), SPAM1 + SPAM2) == H32.Acc(0x719A_836E, 0x514C_1DE8, 0x97FA_4BA2, 0x242A_97A2)
  {
    hide H32.Xor, H32.Round, H32.Avalanche, H32.Tail, H32.Stripes, H32.Merge, H32.ReadLE32;
    FirstWords32();
    NextWords32();
    var a0 := H32.Acc(0x2423_4428, 0x85EB_CA77, 0x0000_0000, 0x61C8_864F);
    assert H32.Init(0x0000_0000) == a0;
    StripeIs32(a0, SPAM1, 0x6F62_6F4E, 0x6920_7964, 0x6570_736E, 0x2073_7463);
    RoundIs32(0x2423_4428, 0x6F62_6F4E, 0x252F_4942, 0x4952_8D6A, 0x51AD_492A, 0x046A_700A);
    RoundIs32(0x85EB_CA77, 0x6920_7964, 0xE0AD_557C, 0x6699_1FF3, 0x23FE_6CD3, 0xBFAD_F8E3);
    RoundIs32(0x0000_0000, 0x6570_736E, 0xFE54_7422, 0xFE54_7422, 0x8E84_5FCA, 0x5B32_B4AA);
    RoundIs32(0x61C8_864F, 0x2073_7463, 0x7562_3805, 0xD72A_BE54, 0x57CA_9AE5, 0x137E_5555);
    var a1 := H32.Acc(0x046A_700A, 0xBFAD_F8E3, 0x5B32_B4AA, 0x137E_5555);
    StripeIs32(a1, SPAM2, 0x2065_6874, 0x6D61_7073, 0x6873_696D, 0x7065_7220);
    RoundIs32(0x046A_700A, 0x2065_6874, 0x3A0B_15EC, 0x3E75_85F6, 0xB0BE_C7CE, 0x719A_836E);
    RoundIs32(0xBFAD_F8E3, 0x6D61_7073, 0xB397_0375, 0x7344_FC58, 0x9F8B_0E68, 0x514C_1DE8);
    RoundIs32(0x5B32_B4AA, 0x6873_696D, 0x06E5_03AB, 0x6217_B855, 0xF70A_AC42, 0x97FA_4BA2);
    RoundIs32(0x137E_5555, 0x7065_7220, 0xAE95_4CE0, 0xC213_A235, 0x7446_B842, 0x242A_97A2);
    var a2 := H32.Acc(0x719A_836E, 0x514C_1DE8, 0x97FA_4BA2, 0x242A_97A2);
    H32.StripesAppend(a0, SPAM1, SPAM2);
  }

  lemma SentenceMerge32()
    ensures H32.Merge(H32.Acc(0x719A_836E, 0x514C_1DE8, 0x97FA_4BA2, 0x242A_97A2)) == 0x8C86_B52D
  {
    hide H32.Xor, H32.Round, H32.Avalanche, H32.Tail, H32.Stripes, H32.Merge;
    var a := H32.Acc(0x719A_836E, 0x514C_1DE8, 0x97FA_4BA2, 0x242A_97A2);
    MergeIs32(a, 0xE335_06DC, 0xA60E_F428, 0xA4BA_297F, 0x5E88_90AA, 0x8C86_B52D);
  }

  lemma Sentence32()
    ensures H32.Hash(SPAM1 + SPAM2 + SPAM3, 0) == 0xE229_3B2F
  {
    hide H32.Xor, H32.Round, H32.Avalanche, H32.Tail, H32.Stripes, H32.Merge, H32.Init;
    SentenceStripes32();
    SentenceMerge32();
    SentenceXors32();
    assert SPAM3 == [101, 116, 105, 116] + [105, 111, 110];
    WordIs32(0x8C86_B554, [101, 116, 105, 116], [105, 111, 110], 0x7469_7465, 0xE277_6211, 0x6EFE_1765, 0x2ECA_DDFC, 0x09B5_1544);
    assert [105, 111, 110] == [105] + [111, 110];
    ByteIs32(0x09B5_1544, 105, [111, 110], 0x2970_8799, 0x3325_9CDD, 0x2CE6_E999, 0xCDEF_D3C9);
    assert [111, 110] == [111] + [110];
    ByteIs32(0xCDEF_D3C9, 111, [110], 0xAF76_F5BF, 0x7D66_C988, 0x364C_43EB, 0x3852_087B);
    assert [110] == [110] + [];
    ByteIs32(0x3852_087B, 110, [], 0x9920_8E0E, 0xD172_9689, 0x94B4_4E8B, 0xB3A7_011B);
    EmptyTail32(0xB3A7_011B);
    AvalancheIs32(0xB3A7_011B, 0x0001_674E, 0xB3A6_6655, 0xE81F_A383, 0x0007_40FD, 0xE818_E37E, 0xE229_D906,
        0x0000_E229, 0xE229_3B2F);
    HashOfParts32(SPAM1 + SPAM2, SPAM3, 0);
  }

  lemma SeededStripeXors32()
    ensures H32.Xor(0xD2CB_4EB0, 0x0001_A596) == 0xD2CA_EB26
    ensures H32.Xor(0xB3C1_4AAA, 0x0005_9E0A) == 0xB3C4_D4A0
    ensures H32.Xor(0xB5AB_6A20, 0x0000_B5AB) == 0xB5AB_DF8B
  {
  }

  lemma SeededStripeStripes32()
    ensures H32.Stripes(H32.Init(SEED), SPAM1) == H32.Acc(0xF91E_4BA1, 0xC52B_B47A, 0x60B0_7041, 0x18FC_10EC)
  {
    hide H32.Xor, H32.Round, H32.Avalanche, H32.Tail, H32.Stripes, H32.Merge, H32.ReadLE32;
    FirstWords32();
    var a0 := H32.Acc(0xC25A_BDD9, 0x2423_4428, 0x9E37_79B1, 0x0000_0000);
    assert H32.Init(0x9E37_79B1) == a0;
    StripeIs32(a0, SPAM1, 0x6F62_6F4E, 0x6920_7964, 0x6570_736E, 0x2073_7463);
    RoundIs32(0xC25A_BDD9, 0x6F62_6F4E, 0x252F_4942, 0xE78A_071B, 0x40E3_7CF1, 0xF91E_4BA1);
    RoundIs32(0x2423_4428, 0x6920_7964, 0xE0AD_557C, 0x04D0_99A4, 0x1334_809A, 0xC52B_B47A);
    RoundIs32(0x9E37_79B1, 0x6570_736E, 0xFE54_7422, 0x9C8B_EDD3, 0x7DBA_7391, 0x60B0_7041);
    RoundIs32(0x0000_0000, 0x2073_7463, 0x7562_3805, 0x7562_3805, 0x4700_AEAC, 0x18FC_10EC);
    var a1 := H32.Acc(0xF91E_4BA1, 0xC52B_B47A, 0x60B0_7041, 0x18FC_10EC);
  }

  lemma SeededStripeMerge32()
    ensures H32.Merge(H32.Acc(0xF91E_4BA1, 0xC52B_B47A, 0x60B0_7041, 0x18FC_10EC)) == 0xD2CB_4EA0
  {
    hide H32.Xor, H32.Round, H32.Avalanche, H32.Tail, H32.Stripes, H32.Merge;
    var a := H32.Acc(0xF91E_4BA1, 0xC52B_B47A, 0x60B0_7041, 0x18FC_10EC);
    MergeIs32(a, 0xF23C_9743, 0x95DA_3D62, 0x0704_160B, 0x43B0_63F0, 0xD2CB_4EA0);
  }

  lemma SeededStripe32()
    ensures H32.Hash(SPAM1, SEED) == 0xB5AB_DF8B
  {
    hide H32.Xor, H32.Round, H32.Avalanche, H32.Tail, H32.Stripes, H32.Merge, H32.Init;
    SeededStripeStripes32();
    SeededStripeMerge32();
    SeededStripeXors32();
    EmptyTail32(0xD2CB_4EB0);
    AvalancheIs32(0xD2CB_4EB0, 0x0001_A596, 0xD2CA_EB26, 0xB3C1_4AAA, 0x0005_9E0A, 0xB3C4_D4A0, 0xB5AB_6A20,
        0x0000_B5AB, 0xB5AB_DF8B);
    assert SPAM1 + [] == SPAM1;
    HashOfParts32(SPAM1, [], SEED);
  }


  // ----- XXH64 values -----
  lemma FirstWords64()
    ensures H64.ReadLE64(SPAM1 + SPAM2, 0) == 0x6920_7964_6F62_6F4E
    ensures H64.ReadLE64(SPAM1 + SPAM2, 8) == 0x2073_7463_6570_736E
    ensures H64.ReadLE64(SPAM1 + SPAM2, 16) == 0x6D61_7073_2065_6874
    ensures H64.ReadLE64(SPAM1 + SPAM2, 24) == 0x7065_7220_6873_696D
  {
  }

  lemma NothingXors64()
    ensures H64.Xor(0x27D4_EB2F_1656_67C5, 0x0000_0000_13EA_7597) == 0x27D4_EB2F_05BC_1252
    ensures H64.Xor(0xBEB1_3DDA_13C2_ED4E, 0x0000_0005_F589_EED0) == 0xBEB1_3DDF_E64B_039E
    ensures H64.Xor(0xEF46_DB37_BE9E_32AE, 0x0000_0000_EF46_DB37) == 0xEF46_DB37_51D8_E999
  {
  }

  lemma Nothing64()
    ensures H64.Hash([], 0) == 0xEF46_DB37_51D8_E999
  {
    hide H64.Xor, H64.Round, H64.Avalanche, H64.Tail, H64.Stripes, H64.Merge, H64.MergeRound, H64.Init;
    NothingXors64();
    EmptyTail64(0x27D4_EB2F_1656_67C5);
    AvalancheIs64(0x27D4_EB2F_1656_67C5, 0x0000_0000_13EA_7597, 0x27D4_EB2F_05BC_1252, 0xBEB1_3DDA_13C2_ED4E,
        0x0000_0005_F589_EED0, 0xBEB1_3DDF_E64B_039E, 0xEF46_DB37_BE9E_32AE, 0x0000_0000_EF46_DB37,
        0xEF46_DB37_51D8_E999);
    HashOfShort64([], 0);
  }

  lemma SelfTestXors64_1()
    ensures H64.Xor(0x27D4_EB2F_B48D_E184, 0xD5AC_8902_3563_E205) == 0xF278_622D_81EE_0381
    ensures H64.Xor(0x3164_064B_7724_F65A, 0xCB85_419B_1EC5_7D73) == 0xFAE1_47D0_69E1_8B29
  {
  }

  lemma SelfTestXors64_2()
    ensures H64.Xor(0x6F4C_B350_5ACE_DD46, 0x2EEC_E268_004A_65A9) == 0x41A0_5138_5A84_B8EF
    ensures H64.Xor(0xC126_FC32_1D6E_9EDB, 0xB0C3_80E8_C083_6E17) == 0x71E5_7CDA_DDED_F0CC
  {
  }

  lemma SelfTestXors64_3()
    ensures H64.Xor(0x45C2_E539_89B2_5669, 0x0000_0000_22E1_729C) == 0x45C2_E539_AB53_24F5
    ensures H64.Xor(0xBEB4_8CEE_1F79_4E9B, 0x0000_0005_F5A4_6770) == 0xBEB4_8CEB_EADD_29EB
    ensures H64.Xor(0x5B96_1158_056A_D893, 0x0000_0000_5B96_1158) == 0x5B96_1158_5EFC_C9CB
  {
  }

  lemma SelfTest64()
    ensures H64.Hash(SELF_TEST, SEED) == 0x5B96_1158_5EFC_C9CB
  {
    hide H64.Xor, H64.Round, H64.Avalanche, H64.Tail, H64.Stripes, H64.Merge, H64.MergeRound, H64.Init;
    SelfTestXors64_1();
    SelfTestXors64_2();
    SelfTestXors64_3();
    RoundIs64(0x0000_0000_0000_0000, 0xDD2F_535E_4B1F_FF9E, 0x38E3_AC26_4F5D_EBC2, 0x38E3_AC26_4F5D_EBC2,
        0x27AE_F5E1_1C71_D613, 0xD5AC_8902_3563_E205);
    assert SELF_TEST == [158, 255, 31, 75, 94, 83, 47, 221] + [181, 84, 77, 42, 149, 43];
    LongIs64(0x27D4_EB2F_B48D_E184, [158, 255, 31, 75, 94, 83, 47, 221], [181, 84, 77, 42, 149, 43],
        0xDD2F_535E_4B1F_FF9E, 0xD5AC_8902_3563_E205, 0xF278_622D_81EE_0381, 0x6C0F_701C_0F93_C311,
        0xAB78_3BD3_B472_47F7, 0x3164_064B_7724_F65A);
    assert [181, 84, 77, 42, 149, 43] == [181, 84, 77, 42] + [149, 43];
    WordIs64(0x3164_064B_7724_F65A, [181, 84, 77, 42], [149, 43], 0x0000_0000_2A4D_54B5, 0xCB85_419B_1EC5_7D73,
        0xFAE1_47D0_69E1_8B29, 0xE834_F0C5_94FD_70A3, 0x58F6_4B9E_BC97_634D, 0x6F4C_B350_5ACE_DD46);
    assert [149, 43] == [149] + [43];
    ByteIs64(0x6F4C_B350_5ACE_DD46, 149, [43], 0x2EEC_E268_004A_65A9, 0x41A0_5138_5A84_B8EF, 0x0289_C2D4_25C7_7A0D,
        0xC126_FC32_1D6E_9EDB);
    assert [43] == [43] + [];
    ByteIs64(0xC126_FC32_1D6E_9EDB, 43, [], 0xB0C3_80E8_C083_6E17, 0x71E5_7CDA_DDED_F0CC, 0x2BE6_D6EF_6F86_638F,
        0x45C2_E539_89B2_5669);
    EmptyTail64(0x45C2_E539_89B2_5669);
    AvalancheIs64(0x45C2_E539_89B2_5669, 0x0000_0000_22E1_729C, 0x45C2_E539_AB53_24F5, 0xBEB4_8CEE_1F79_4E9B,
        0x0000_0005_F5A4_6770, 0xBEB4_8CEB_EADD_29EB, 0x5B96_1158_056A_D893, 0x0000_0000_5B96_1158,
        0x5B96_1158_5EFC_C9CB);
    HashOfShort64(SELF_TEST, SEED);
  }

  lemma SentenceMergeXors64_1()
    ensures H64.Xor(0xC4DE_2CE6_39FB_8154, 0x7790_FF1F_7A9A_2803) == 0xB34E_D3F9_4361_A957
    ensures H64.Xor(0x30D4_0DDD_00AE_A144, 0xDECE_D6C0_BF71_6B27) == 0xEE1A_DB1D_BFDF_CA63
  {
  }

  lemma SentenceMergeXors64_2()
    ensures H64.Xor(0xE5A1_F095_BF49_8698, 0x7007_3EB8_0575_9BBE) == 0x95A6_CE2D_BA3C_1D26
    ensures H64.Xor(0xF9CE_E721_E748_096D, 0xC1CB_BAE5_0E57_E4F3) == 0x3805_5DC4_E91F_ED9E
  {
  }

  lemma SentenceXors64_1()
    ensures H64.Xor(0x84F2_2C42_1A11_A8DC, 0xE986_3933_EB2B_1343) == 0x6D74_1571_F13A_BB9F
    ensures H64.Xor(0x9FCA_0F5D_0AAA_110F, 0x5654_7650_2970_8FCD) == 0xC99E_790D_23DA_9EC2
  {
  }

  lemma SentenceXors64_2()
    ensures H64.Xor(0x7696_7154_6F21_BA14, 0x4551_F96A_AF76_FE6B) == 0x33C7_883E_C057_447F
    ensures H64.Xor(0xEAE9_B643_C5F9_4E52, 0x1D7D_0E3B_9920_96A6) == 0xF794_B878_5CD9_D8F4
  {
  }

  lemma SentenceXors64_3()
    ensures H64.Xor(0x1D0A_4748_3B37_CC24, 0x0000_0000_0E85_23A4) == 0x1D0A_4748_35B2_EF80
    ensures H64.Xor(0x5F02_14BE_AA12_6880, 0x0000_0002_F810_A5F5) == 0x5F02_14BC_5202_CD75
    ensures H64.Xor(0xFBCE_A83C_71F9_23CD, 0x0000_0000_FBCE_A83C) == 0xFBCE_A83C_8A37_8BF1
  {
  }

  lemma SentenceStripes64()
    ensures H64.Stripes(H64.Init(0), SPAM1 + SPAM2) == H64.Acc(0x3724_5127_A406_7E4B, 0x1B30_2B0A_818F_92CF,
        0xCD62_D843_D058_0FCA, 0x1C16_E43E_F214_2A4A)
  {
    hide H64.Xor, H64.Round, H64.Avalanche, H64.Tail, H64.Stripes, H64.Merge, H64.MergeRound, H64.ReadLE64;
    FirstWords64();
    var a0 := H64.Acc(0x60EA_27EE_ADC0_B5D6, 0xC2B2_AE3D_27D4_EB4F, 0x0000_0000_0000_0000, 0x61C8_864E_7A14_3579);
    assert H64.Init(0x0000_0000_0000_0000) == a0;
    StripeIs64(a0, (SPAM1 + SPAM2), 0x6920_7964_6F62_6F4E, 0x2073_7463_6570_736E, 0x6D61_7073_2065_6874, 0x7065_7220_6873_696D);
    RoundIs64(0x60EA_27EE_ADC0_B5D6, 0x6920_7964_6F62_6F4E, 0x06F0_6E4C_CA24_F312, 0x67DA_963B_77E5_A8E8,
        0xBBF2_D474_33ED_4B1D, 0x3724_5127_A406_7E4B);
    RoundIs64(0xC2B2_AE3D_27D4_EB4F, 0x2073_7463_6570_736E, 0xBEF8_90B5_E0C1_98F2, 0x81AB_3EF3_0896_8441,
        0x844B_4220_C0D5_9F79, 0x1B30_2B0A_818F_92CF);
    RoundIs64(0x0000_0000_0000_0000, 0x6D61_7073_2065_6874, 0x0A62_64CC_423D_B7CC, 0x0A62_64CC_423D_B7CC,
        0x211E_DBE6_0531_3266, 0xCD62_D843_D058_0FCA);
    RoundIs64(0x61C8_864E_7A14_3579, 0x7065_7220_6873_696D, 0x7EC4_417E_16A8_97A3, 0xE08C_C7CC_90BC_CD1C,
        0x485E_668E_7046_63E6, 0x1C16_E43E_F214_2A4A);
    var a1 := H64.Acc(0x3724_5127_A406_7E4B, 0x1B30_2B0A_818F_92CF, 0xCD62_D843_D058_0FCA, 0x1C16_E43E_F214_2A4A);
  }

  lemma SentenceMerge64()
    ensures H64.Merge(H64.Acc(0x3724_5127_A406_7E4B, 0x1B30_2B0A_818F_92CF, 0xCD62_D843_D058_0FCA,
        0x1C16_E43E_F214_2A4A)) == 0x84F2_2C42_1A11_A8B5
  {
    hide H64.Xor, H64.Round, H64.Avalanche, H64.Tail, H64.Stripes, H64.Merge, H64.MergeRound;
    SentenceMergeXors64_1();
    SentenceMergeXors64_2();
    var a := H64.Acc(0x3724_5127_A406_7E4B, 0x1B30_2B0A_818F_92CF, 0xCD62_D843_D058_0FCA, 0x1C16_E43E_F214_2A4A);
    RoundIs64(0x0000_0000_0000_0000, 0x3724_5127_A406_7E4B, 0xBF0E_534A_970B_D225, 0xBF0E_534A_970B_D225,
        0x4B85_E912_DF87_29A5, 0x7790_FF1F_7A9A_2803);
    MergeRoundIs64(0xC4DE_2CE6_39FB_8154, 0x3724_5127_A406_7E4B, 0x7790_FF1F_7A9A_2803, 0xB34E_D3F9_4361_A957,
        0xAAE8_4365_3DFB_F2E1, 0x30D4_0DDD_00AE_A144);
    RoundIs64(0x0000_0000_0000_0000, 0x1B30_2B0A_818F_92CF, 0x40BC_C4C2_E37E_52E1, 0x40BC_C4C2_E37E_52E1,
        0x71BF_2970_A05E_6261, 0xDECE_D6C0_BF71_6B27);
    MergeRoundIs64(0x30D4_0DDD_00AE_A144, 0x1B30_2B0A_818F_92CF, 0xDECE_D6C0_BF71_6B27, 0xEE1A_DB1D_BFDF_CA63,
        0x5FB6_261D_FC96_D835, 0xE5A1_F095_BF49_8698);
    RoundIs64(0x0000_0000_0000_0000, 0xCD62_D843_D058_0FCA, 0x1917_FFA4_FAF3_4D56, 0x1917_FFA4_FAF3_4D56,
        0x7D79_A6AB_0C8B_FFD2, 0x7007_3EB8_0575_9BBE);
    MergeRoundIs64(0xE5A1_F095_BF49_8698, 0xCD62_D843_D058_0FCA, 0x7007_3EB8_0575_9BBE, 0x95A6_CE2D_BA3C_1D26,
        0x73E3_1CAA_2495_5B0A, 0xF9CE_E721_E748_096D);
    RoundIs64(0x0000_0000_0000_0000, 0x1C16_E43E_F214_2A4A, 0x2898_226B_8252_FAD6, 0x2898_226B_8252_FAD6,
        0xC129_7D6B_144C_1135, 0xC1CB_BAE5_0E57_E4F3);
    MergeRoundIs64(0xF9CE_E721_E748_096D, 0x1C16_E43E_F214_2A4A, 0xC1CB_BAE5_0E57_E4F3, 0x3805_5DC4_E91F_ED9E,
        0xFF06_61CA_575E_FA52, 0x84F2_2C42_1A11_A8B5);
    MergeIs64(a, 0x6E48_A24F_480C_FC96, 0x9815_8540_C7C9_678D, 0x2D84_3D05_80FC_ACD6, 0x90FB_C850_A928_705B,
        0xC4DE_2CE6_39FB_8154, 0x30D4_0DDD_00AE_A144, 0xE5A1_F095_BF49_8698, 0xF9CE_E721_E748_096D,
        0x84F2_2C42_1A11_A8B5);
  }

  lemma Sentence64()
    ensures H64.Hash(SPAM1 + SPAM2 + SPAM3, 0) == 0xFBCE_A83C_8A37_8BF1
  {
    hide H64.Xor, H64.Round, H64.Avalanche, H64.Tail, H64.Stripes, H64.Merge, H64.MergeRound, H64.Init;
    SentenceStripes64();
    SentenceMerge64();
    SentenceXors64_1();
    SentenceXors64_2();
    SentenceXors64_3();
    assert SPAM3 == [101, 116, 105, 116] + [105, 111, 110];
    WordIs64(0x84F2_2C42_1A11_A8DC, [101, 116, 105, 116], [105, 111, 110], 0x0000_0000_7469_7465,
        0xE986_3933_EB2B_1343, 0x6D74_1571_F13A_BB9F, 0xB8F8_9D5D_CFB6_BA0A, 0x8973_A7AB_6C72_9716,
        0x9FCA_0F5D_0AAA_110F);
    assert [105, 111, 110] == [105] + [111, 110];
    ByteIs64(0x9FCA_0F5D_0AAA_110F, 105, [111, 110], 0x5654_7650_2970_8FCD, 0xC99E_790D_23DA_9EC2,
        0xF3C8_691E_D4F6_164C, 0x7696_7154_6F21_BA14);
    assert [111, 110] == [111] + [110];
    ByteIs64(0x7696_7154_6F21_BA14, 111, [110], 0x4551_F96A_AF76_FE6B, 0x33C7_883E_C057_447F, 0x3C41_F602_BA23_F99E,
        0xEAE9_B643_C5F9_4E52);
    assert [110] == [110] + [];
    ByteIs64(0xEAE9_B643_C5F9_4E52, 110, [], 0x1D7D_0E3B_9920_96A6, 0xF794_B878_5CD9_D8F4, 0xA5C3_C2E6_CEC7_A7BC,
        0x1D0A_4748_3B37_CC24);
    EmptyTail64(0x1D0A_4748_3B37_CC24);
    AvalancheIs64(0x1D0A_4748_3B37_CC24, 0x0000_0000_0E85_23A4, 0x1D0A_4748_35B2_EF80, 0x5F02_14BE_AA12_6880,
        0x0000_0002_F810_A5F5, 0x5F02_14BC_5202_CD75, 0xFBCE_A83C_71F9_23CD, 0x0000_0000_FBCE_A83C,
        0xFBCE_A83C_8A37_8BF1);
    HashOfParts64(SPAM1 + SPAM2, SPAM3, 0);
  }

  lemma SeededStripeMergeXors64_1()
    ensures H64.Xor(0x8CE5_4460_45D2_D4DD, 0x8314_A8F5_68FD_0B44) == 0x0FF1_EC95_2D2F_DF99
    ensures H64.Xor(0xD73F_86B0_1BD3_5212, 0xB5A9_3F12_9757_0561) == 0x6296_B9A2_8C84_5773
  {
  }

  lemma SeededStripeMergeXors64_2()
    ensures H64.Xor(0xC5A4_827E_4F0E_8A08, 0x46E1_A709_DD5B_35F8) == 0x8345_2577_9255_BFF0
    ensures H64.Xor(0xE44E_EC5C_78AE_45F3, 0x36DD_9CE8_6C29_49B4) == 0xD293_70B4_1487_0C47
  {
  }

  lemma SeededStripeXors64()
    ensures H64.Xor(0x6801_5F11_4DC7_2DF4, 0x0000_0000_3400_AF88) == 0x6801_5F11_79C7_827C
    ensures H64.Xor(0x1029_FED3_AC09_1844, 0x0000_0000_814F_F69D) == 0x1029_FED3_2D46_EED9
    ensures H64.Xor(0x62A5_A07D_CF81_E211, 0x0000_0000_62A5_A07D) == 0x62A5_A07D_AD24_426C
  {
  }

  lemma SeededStripeStripes64()
    ensures H64.Stripes(H64.Init(SEED), SPAM1 + SPAM2) == H64.Acc(0xC53C_B604_A9F2_48D2, 0x0B11_1636_018F_92CF,
        0xBD43_C36F_5058_0FCA, 0x0BF7_CF6A_7214_2A4A)
  {
    hide H64.Xor, H64.Round, H64.Avalanche, H64.Tail, H64.Stripes, H64.Merge, H64.MergeRound, H64.ReadLE64;
    FirstWords64();
    var a0 := H64.Acc(0x60EA_27EF_4BF8_2F87, 0xC2B2_AE3D_C60C_6500, 0x0000_0000_9E37_79B1, 0x61C8_864F_184B_AF2A);
    assert H64.Init(0x0000_0000_9E37_79B1) == a0;
    StripeIs64(a0, (SPAM1 + SPAM2), 0x6920_7964_6F62_6F4E, 0x2073_7463_6570_736E, 0x6D61_7073_2065_6874, 0x7065_7220_6873_696D);
    RoundIs64(0x60EA_27EF_4BF8_2F87, 0x6920_7964_6F62_6F4E, 0x06F0_6E4C_CA24_F312, 0x67DA_963C_161D_2299,
        0x0B0E_914C_B3ED_4B1E, 0xC53C_B604_A9F2_48D2);
    RoundIs64(0xC2B2_AE3D_C60C_6500, 0x2073_7463_6570_736E, 0xBEF8_90B5_E0C1_98F2, 0x81AB_3EF3_A6CD_FDF2,
        0xD366_FEF9_40D5_9F79, 0x0B11_1636_018F_92CF);
    RoundIs64(0x0000_0000_9E37_79B1, 0x6D61_7073_2065_6874, 0x0A62_64CC_423D_B7CC, 0x0A62_64CC_E075_317D,
        0x703A_98BE_8531_3266, 0xBD43_C36F_5058_0FCA);
    RoundIs64(0x61C8_864F_184B_AF2A, 0x7065_7220_6873_696D, 0x7EC4_417E_16A8_97A3, 0xE08C_C7CD_2EF4_46CD,
        0x977A_2366_F046_63E6, 0x0BF7_CF6A_7214_2A4A);
    var a1 := H64.Acc(0xC53C_B604_A9F2_48D2, 0x0B11_1636_018F_92CF, 0xBD43_C36F_5058_0FCA, 0x0BF7_CF6A_7214_2A4A);
  }

  lemma SeededStripeMerge64()
    ensures H64.Merge(H64.Acc(0xC53C_B604_A9F2_48D2, 0x0B11_1636_018F_92CF, 0xBD43_C36F_5058_0FCA,
        0x0BF7_CF6A_7214_2A4A)) == 0x6801_5F11_4DC7_2DD4
  {
    hide H64.Xor, H64.Round, H64.Avalanche, H64.Tail, H64.Stripes, H64.Merge, H64.MergeRound;
    SeededStripeMergeXors64_1();
    SeededStripeMergeXors64_2();
    var a := H64.Acc(0xC53C_B604_A9F2_48D2, 0x0B11_1636_018F_92CF, 0xBD43_C36F_5058_0FCA, 0x0BF7_CF6A_7214_2A4A);
    RoundIs64(0x0000_0000_0000_0000, 0xC53C_B604_A9F2_48D2, 0xFCD1_2F38_2685_3ECE, 0xFCD1_2F38_2685_3ECE,
        0x1342_9F67_7E68_979C, 0x8314_A8F5_68FD_0B44);
    MergeRoundIs64(0x8CE5_4460_45D2_D4DD, 0xC53C_B604_A9F2_48D2, 0x8314_A8F5_68FD_0B44, 0x0FF1_EC95_2D2F_DF99,
        0x5153_BC38_5920_A3AF, 0xD73F_86B0_1BD3_5212);
    RoundIs64(0x0000_0000_0000_0000, 0x0B11_1636_018F_92CF, 0x9F8C_45AF_637E_52E1, 0x9F8C_45AF_637E_52E1,
        0xB1BF_2970_CFC6_22D7, 0xB5A9_3F12_9757_0561);
    MergeRoundIs64(0xD73F_86B0_1BD3_5212, 0x0B11_1636_018F_92CF, 0xB5A9_3F12_9757_0561, 0x6296_B9A2_8C84_5773,
        0x3FB8_B806_8C5B_DBA5, 0xC5A4_827E_4F0E_8A08);
    RoundIs64(0x0000_0000_0000_0000, 0xBD43_C36F_5058_0FCA, 0x77E7_8091_7AF3_4D56, 0x77E7_8091_7AF3_4D56,
        0xBD79_A6AB_3BF3_C048, 0x46E1_A709_DD5B_35F8);
    MergeRoundIs64(0xC5A4_827E_4F0E_8A08, 0xBD43_C36F_5058_0FCA, 0x46E1_A709_DD5B_35F8, 0x8345_2577_9255_BFF0,
        0x5E63_21E4_B5FB_9790, 0xE44E_EC5C_78AE_45F3);
    RoundIs64(0x0000_0000_0000_0000, 0x0BF7_CF6A_7214_2A4A, 0x8767_A358_0252_FAD6, 0x8767_A358_0252_FAD6,
        0x0129_7D6B_43B3_D1AC, 0x36DD_9CE8_6C29_49B4);
    MergeRoundIs64(0xE44E_EC5C_78AE_45F3, 0x0BF7_CF6A_7214_2A4A, 0x36DD_9CE8_6C29_49B4, 0xD293_70B4_1487_0C47,
        0xE215_9499_8B14_7F71, 0x6801_5F11_4DC7_2DD4);
    MergeIs64(a, 0x8A79_6C09_53E4_91A5, 0x888B_1B00_C7C9_6785, 0x3C36_F505_80FC_ABD4, 0x3DA9_C850_A928_2FDF,
        0x8CE5_4460_45D2_D4DD, 0xD73F_86B0_1BD3_5212, 0xC5A4_827E_4F0E_8A08, 0xE44E_EC5C_78AE_45F3,
        0x6801_5F11_4DC7_2DD4);
  }

  lemma SeededStripe64()
    ensures H64.Hash(SPAM1 + SPAM2, SEED) == 0x62A5_A07D_AD24_426C
  {
    hide H64.Xor, H64.Round, H64.Avalanche, H64.Tail, H64.Stripes, H64.Merge, H64.MergeRound, H64.Init;
    SeededStripeStripes64();
    SeededStripeMerge64();
    SeededStripeXors64();
    EmptyTail64(0x6801_5F11_4DC7_2DF4);
    AvalancheIs64(0x6801_5F11_4DC7_2DF4, 0x0000_0000_3400_AF88, 0x6801_5F11_79C7_827C, 0x1029_FED3_AC09_1844,
        0x0000_0000_814F_F69D, 0x1029_FED3_2D46_EED9, 0x62A5_A07D_CF81_E211, 0x0000_0000_62A5_A07D,
        0x62A5_A07D_AD24_426C);
    assert SPAM1 + SPAM2 + [] == SPAM1 + SPAM2;
    HashOfParts64(SPAM1 + SPAM2, [], SEED);
  }
}
