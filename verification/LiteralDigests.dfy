/**
 Digests of literal inputs, as numbers: of the empty input, and of inputs that take a
 stripe and every kind of tail step.
 */
module LiteralDigests {
  import opened Bytes
  import opened Words
  import opened LaneHash
  import opened XorDigits
  import Xxh32
  import Xxh64

  /** The bytes 0 to 44, of which XXH32 gets the first 21. */
  const COUNT: seq<byte> := seq(45, i requires 0 <= i < 45 => i as byte)

  // ---------------------------------------------------------------- one operation on numbers

  lemma Product(a: nat, b: nat, q: nat, r: nat, modulus: nat)
    requires modulus > 0 && a * b == q * modulus + r && r < modulus
    ensures Mul(a, b, modulus) == r
  {
    Quotient(a * b, q, r, modulus);
  }

  lemma Quotient(x: nat, q: nat, r: nat, modulus: nat)
    requires modulus > 0 && x == q * modulus + r && r < modulus
    ensures x / modulus == q && x % modulus == r
  {
    assert x == x / modulus * modulus + x % modulus;
    Unique(x / modulus, x % modulus, q, r, modulus);
  }

  lemma Unique(q: nat, r: nat, q': nat, r': nat, m: nat)
    requires q * m + r == q' * m + r' && r < m && r' < m
    ensures q == q' && r == r'
  {
    if q > q' { Apart(q', q, m); }
    if q < q' { Apart(q, q', m); }
  }

  lemma Apart(a: nat, b: nat, m: nat)
    requires a < b
    ensures a * m + m <= b * m
  {
    assert b * m == (a + 1) * m + (b - a - 1) * m;
  }

  lemma Turned(x: nat, up: nat, low: nat, h: nat, l: nat)
    requires low > 0 && x == h * low + l && l < low
    ensures Rotate(x, up, low) == l * up + h
  {
    Quotient(x, h, l, low);
  }

  lemma RoundIs64(acc: nat, input: nat, t: nat, u: nat, w: nat, r: nat)
    requires Mul(input, 0xC2B2_AE3D_27D4_EB4F, TWO_64) == t && Add(acc, t, TWO_64) == u
    requires Rotate(u, 0x8000_0000, 0x2_0000_0000) == w && Mul(w, 0x9E37_79B1_85EB_CA87, TWO_64) == r
    ensures Xxh64.Round(acc, input) == r
  {}

  lemma RoundIs32(acc: nat, input: nat, t: nat, u: nat, w: nat, r: nat)
    requires Mul(input, 0x85EB_CA77, TWO_32) == t && Add(acc, t, TWO_32) == u
    requires Rotate(u, 0x2000, 0x8_0000) == w && Mul(w, 0x9E37_79B1, TWO_32) == r
    ensures Xxh32.Round(acc, input) == r
  {}

  lemma AvalancheIs64(h: nat, a: nat, x: nat, h1: nat, b: nat, y: nat, h2: nat, c: nat, r: nat)
    requires h / 0x2_0000_0000 == a && Xor(h, a) == x && Mul(x, 0xC2B2_AE3D_27D4_EB4F, TWO_64) == h1
    requires h1 / 0x2000_0000 == b && Xor(h1, b) == y && Mul(y, 0x1656_67B1_9E37_79F9, TWO_64) == h2
    requires h2 / 0x1_0000_0000 == c && Xor(h2, c) == r
    ensures Xxh64.Avalanche(h) == r
  {
    hide Xor;
  }

  lemma AvalancheIs32(h: nat, a: nat, x: nat, h1: nat, b: nat, y: nat, h2: nat, c: nat, r: nat)
    requires h / 0x8000 == a && Xor(h, a) == x && Mul(x, 0x85EB_CA77, TWO_32) == h1
    requires h1 / 0x2000 == b && Xor(h1, b) == y && Mul(y, 0xC2B2_AE3D, TWO_32) == h2
    requires h2 / 0x1_0000 == c && Xor(h2, c) == r
    ensures Xxh32.Avalanche(h) == r
  {
    hide Xor;
  }

  /** A little-endian word of four bytes, or eight. */
  lemma WordOf4(s: seq<byte>, i: nat)
    requires i + 4 <= |s|
    ensures ReadLE(s[i..i + 4]) ==
      s[i] as nat + 0x100 * (s[i + 1] as nat) + 0x1_0000 * (s[i + 2] as nat) + 0x100_0000 * (s[i + 3] as nat)
  {
    hide ReadLE;
    FirstByte(s, i, i + 4);
    FirstByte(s, i + 1, i + 4);
    FirstByte(s, i + 2, i + 4);
    FirstByte(s, i + 3, i + 4);
    NoBytes();
  }

  lemma FirstByte(s: seq<byte>, i: nat, j: nat)
    requires i < j <= |s|
    ensures ReadLE(s[i..j]) == s[i] as nat + 0x100 * ReadLE(s[i + 1..j])
  {
    assert s[i..j][1..] == s[i + 1..j];
  }

  lemma NoBytes()
    ensures forall s: seq<byte> | s == [] :: ReadLE(s) == 0
  {}

  lemma WordOf8(s: seq<byte>, i: nat)
    requires i + 8 <= |s|
    ensures ReadLE(s[i..i + 8]) == ReadLE(s[i..i + 4]) + 0x1_0000_0000 * ReadLE(s[i + 4..i + 8])
  {
    hide ReadLE;
    WordOf4(s, i);
    FirstByte(s, i, i + 8);
    FirstByte(s, i + 1, i + 8);
    FirstByte(s, i + 2, i + 8);
    FirstByte(s, i + 3, i + 8);
  }

  /** One stripe, whatever the round does. */
  lemma AbsorbOne<L>(round: (L, nat) -> L, word: nat, v: Lanes<L>, data: seq<byte>)
    requires word > 0 && 4 * word <= |data| < 8 * word
    ensures Absorb(round, word, v, data) ==
      Lanes(round(v.v0, ReadLE(data[0..word])), round(v.v1, ReadLE(data[word..2 * word])),
            round(v.v2, ReadLE(data[2 * word..3 * word])), round(v.v3, ReadLE(data[3 * word..4 * word])))
  {
    var n := 4 * word;
    assert Absorb(round, word, v, data) == TakeStripe(round, word, v, data[..n]);
    assert data[..n][..word] == data[0..word] && data[..n][word..2 * word] == data[word..2 * word];
    assert data[..n][2 * word..3 * word] == data[2 * word..3 * word] && data[..n][3 * word..] == data[3 * word..n];
  }

  lemma EmptyIs64(seed: nat, h: nat)
    requires h == Add(seed, 0x27D4_EB2F_1656_67C5, TWO_64)
    ensures Xxh64.Hash([], seed) == Xxh64.Avalanche(h)
  {
    hide Xxh64.Avalanche;
  }

  lemma EmptyIs32(seed: nat, h: nat)
    requires h == Add(seed, 0x1656_67B1, TWO_32)
    ensures Xxh32.Hash([], seed) == Xxh32.Avalanche(h)
  {
    hide Xxh32.Avalanche;
  }

  // ---------------------------------------------------------------- the empty input

  lemma EmptyAvalanche64Xor1()
    ensures Xor(0x27D4_EB2F_B48D_E176, 0x13EA_7597) == 0x27D4_EB2F_A767_94E1
  {
    hide Xor, Digit;
    Row1(); Row4(); Row6(); Row7(); Row8(); Row11(); Row13(); Row14();
    NothingToCombine(0x27D4_EB2F);
    FourDigits(0x27D4_EB2F, 0x0, 0xB, 0x4, 0x8, 0xD, 0x1, 0x3, 0xE, 0xA);
    FourDigits(0x27D4_EB2F_B48D, 0x13EA, 0xE, 0x1, 0x7, 0x6, 0x7, 0x5, 0x9, 0x7);
  }

  lemma EmptyAvalanche64Xor2()
    ensures Xor(0x15E2_2373_4FF5_7C6F, 0xAF11_1B9A) == 0x15E2_2373_E0E4_67F5
  {
    hide Xor, Digit;
    Row4(); Row5(); Row6(); Row7(); Row12(); Row15();
    NothingToCombine(0x15E2_2373);
    FourDigits(0x15E2_2373, 0x0, 0x4, 0xF, 0xF, 0x5, 0xA, 0xF, 0x1, 0x1);
    FourDigits(0x15E2_2373_4FF5, 0xAF11, 0x7, 0xC, 0x6, 0xF, 0x1, 0xB, 0x9, 0xA);
  }

  lemma EmptyAvalanche64Xor3()
    ensures Xor(0xAC75_FDA2_3EEE_EA4D, 0xAC75_FDA2) == 0xAC75_FDA2_929B_17EF
  {
    hide Xor, Digit;
    Row3(); Row4(); Row10(); Row13(); Row14();
    NothingToCombine(0xAC75_FDA2);
    FourDigits(0xAC75_FDA2, 0x0, 0x3, 0xE, 0xE, 0xE, 0xA, 0xC, 0x7, 0x5);
    FourDigits(0xAC75_FDA2_3EEE, 0xAC75, 0xE, 0xA, 0x4, 0xD, 0xF, 0xD, 0xA, 0x2);
  }

  lemma EmptyAvalanche64()
    ensures Xxh64.Avalanche(0x27D4_EB2F_B48D_E176) == 0xAC75_FDA2_929B_17EF
  {
    hide Xor, Mul, Xxh64.Avalanche;
    EmptyAvalanche64Xor1();
    EmptyAvalanche64Xor2();
    EmptyAvalanche64Xor3();
    Product(0x27D4_EB2F_A767_94E1, 0xC2B2_AE3D_27D4_EB4F, 0x1E4B_2761_DFC7_E3BF, 0x15E2_2373_4FF5_7C6F, TWO_64);
    Product(0x15E2_2373_E0E4_67F5, 0x1656_67B1_9E37_79F9, 0x1E8_D1E1_0965_A028, 0xAC75_FDA2_3EEE_EA4D, TWO_64);
    AvalancheIs64(0x27D4_EB2F_B48D_E176, 0x13EA_7597, 0x27D4_EB2F_A767_94E1, 0x15E2_2373_4FF5_7C6F, 0xAF11_1B9A,
      0x15E2_2373_E0E4_67F5, 0xAC75_FDA2_3EEE_EA4D, 0xAC75_FDA2, 0xAC75_FDA2_929B_17EF);
  }

  /** XXH64 of nothing. */
  lemma EmptyDigest64()
    ensures Xxh64.Hash([], 0x9E37_79B1) == 0xAC75_FDA2_929B_17EF
  {
    hide Xxh64.Hash, Xxh64.Avalanche;
    EmptyAvalanche64();
    EmptyIs64(0x9E37_79B1, 0x27D4_EB2F_B48D_E176);
  }

  lemma EmptyAvalanche32Xor1()
    ensures Xor(0xB48D_E162, 0x1_691B) == 0xB48C_8879
  {
    hide Xor, Digit;
    Row1(); Row2(); Row4(); Row6(); Row8(); Row11(); Row13(); Row14();
    NoDigits();
    FourDigits(0x0, 0x0, 0xB, 0x4, 0x8, 0xD, 0x0, 0x0, 0x0, 0x1);
    FourDigits(0xB48D, 0x1, 0xE, 0x1, 0x6, 0x2, 0x6, 0x9, 0x1, 0xB);
  }

  lemma EmptyAvalanche32Xor2()
    ensures Xor(0xF515_EA3F, 0x7_A8AF) == 0xF512_4290
  {
    hide Xor, Digit;
    Row1(); Row3(); Row5(); Row10(); Row14(); Row15();
    NoDigits();
    FourDigits(0x0, 0x0, 0xF, 0x5, 0x1, 0x5, 0x0, 0x0, 0x0, 0x7);
    FourDigits(0xF515, 0x7, 0xE, 0xA, 0x3, 0xF, 0xA, 0x8, 0xA, 0xF);
  }

  lemma EmptyAvalanche32Xor3()
    ensures Xor(0x36B7_BC50, 0x36B7) == 0x36B7_8AE7
  {
    hide Xor, Digit;
    Row0(); Row5(); Row11(); Row12();
    NothingToCombine(0x36B7);
    FourDigits(0x36B7, 0x0, 0xB, 0xC, 0x5, 0x0, 0x3, 0x6, 0xB, 0x7);
  }

  lemma EmptyAvalanche32()
    ensures Xxh32.Avalanche(0xB48D_E162) == 0x36B7_8AE7
  {
    hide Xor, Mul, Xxh32.Avalanche;
    EmptyAvalanche32Xor1();
    EmptyAvalanche32Xor2();
    EmptyAvalanche32Xor3();
    Product(0xB48C_8879, 0x85EB_CA77, 0x5E73_4EB2, 0xF515_EA3F, TWO_32);
    Product(0xF512_4290, 0xC2B2_AE3D, 0xBA62_E3F0, 0x36B7_BC50, TWO_32);
    AvalancheIs32(0xB48D_E162, 0x1_691B, 0xB48C_8879, 0xF515_EA3F, 0x7_A8AF,
      0xF512_4290, 0x36B7_BC50, 0x36B7, 0x36B7_8AE7);
  }

  /** XXH32 of nothing. */
  lemma EmptyDigest32()
    ensures Xxh32.Hash([], 0x9E37_79B1) == 0x36B7_8AE7
  {
    hide Xxh32.Hash, Xxh32.Avalanche;
    EmptyAvalanche32();
    EmptyIs32(0x9E37_79B1, 0xB48D_E162);
  }

  // ---------------------------------------------------------------- a stripe and a tail

  lemma Words4()
    ensures ReadLE(COUNT[0..4]) == 0x302_0100
    ensures ReadLE(COUNT[4..8]) == 0x706_0504
    ensures ReadLE(COUNT[8..12]) == 0xB0A_0908
    ensures ReadLE(COUNT[12..16]) == 0xF0E_0D0C
    ensures ReadLE(COUNT[16..20]) == 0x1312_1110
    ensures ReadLE(COUNT[20..24]) == 0x1716_1514
    ensures ReadLE(COUNT[24..28]) == 0x1B1A_1918
    ensures ReadLE(COUNT[28..32]) == 0x1F1E_1D1C
    ensures ReadLE(COUNT[32..36]) == 0x2322_2120
    ensures ReadLE(COUNT[36..40]) == 0x2726_2524
    ensures ReadLE(COUNT[40..44]) == 0x2B2A_2928
  {
    hide ReadLE;
    WordOf4(COUNT, 0);
    WordOf4(COUNT, 4);
    WordOf4(COUNT, 8);
    WordOf4(COUNT, 12);
    WordOf4(COUNT, 16);
    WordOf4(COUNT, 20);
    WordOf4(COUNT, 24);
    WordOf4(COUNT, 28);
    WordOf4(COUNT, 32);
    WordOf4(COUNT, 36);
    WordOf4(COUNT, 40);
  }

  lemma Words8()
    ensures ReadLE(COUNT[0..8]) == 0x706_0504_0302_0100
    ensures ReadLE(COUNT[8..16]) == 0xF0E_0D0C_0B0A_0908
    ensures ReadLE(COUNT[16..24]) == 0x1716_1514_1312_1110
    ensures ReadLE(COUNT[24..32]) == 0x1F1E_1D1C_1B1A_1918
    ensures ReadLE(COUNT[32..40]) == 0x2726_2524_2322_2120
  {
    hide ReadLE;
    Words4();
    WordOf8(COUNT, 0);
    WordOf8(COUNT, 8);
    WordOf8(COUNT, 16);
    WordOf8(COUNT, 24);
    WordOf8(COUNT, 32);
  }

  lemma Start64()
    ensures Xxh64.Start(0x9E37_79B1) == Lanes(
      0x60EA_27EF_4BF8_2F87, 0xC2B2_AE3D_C60C_6500,
      0x9E37_79B1, 0x61C8_864F_184B_AF2A)
  {}

  lemma Lane64At0()
    ensures Xxh64.Round(0x60EA_27EF_4BF8_2F87, 0x706_0504_0302_0100) == 0xE496_2682_C06B_5E99
  {
    hide Mul, Rotate, Xxh64.Round;
    Product(0x706_0504_0302_0100, 0xC2B2_AE3D_27D4_EB4F, 0x557_76C4_4C01_4A5B, 0x3B66_43CF_9889_4F00, TWO_64);
    Turned(0x9C50_6BBE_E481_7E87, 0x8000_0000, 0x2_0000_0000, 0x4E28_35DF, 0xE481_7E87);
    Product(0x7240_BF43_CE28_35DF, 0x9E37_79B1_85EB_CA87, 0x469C_B844_C5BE_4566, 0xE496_2682_C06B_5E99, TWO_64);
    RoundIs64(0x60EA_27EF_4BF8_2F87, 0x706_0504_0302_0100, 0x3B66_43CF_9889_4F00,
      0x9C50_6BBE_E481_7E87, 0x7240_BF43_CE28_35DF, 0xE496_2682_C06B_5E99);
  }

  lemma Lane64At1()
    ensures Xxh64.Round(0xC2B2_AE3D_C60C_6500, 0xF0E_0D0C_0B0A_0908) == 0xB3B4_367C_9FC3_2561
  {
    hide Mul, Rotate, Xxh64.Round;
    Product(0xF0E_0D0C_0B0A_0908, 0xC2B2_AE3D_27D4_EB4F, 0xB73_27E7_584C_3CA7, 0xFA0F_5771_5103_2178, TWO_64);
    Turned(0xBCC2_05AF_170F_8678, 0x8000_0000, 0x2_0000_0000, 0x5E61_02D7, 0x1_170F_8678);
    Product(0x8B87_C33C_5E61_02D7, 0x9E37_79B1_85EB_CA87, 0x563C_06FE_215B_B862, 0xB3B4_367C_9FC3_2561, TWO_64);
    RoundIs64(0xC2B2_AE3D_C60C_6500, 0xF0E_0D0C_0B0A_0908, 0xFA0F_5771_5103_2178,
      0xBCC2_05AF_170F_8678, 0x8B87_C33C_5E61_02D7, 0xB3B4_367C_9FC3_2561);
  }

  lemma Lane64At2()
    ensures Xxh64.Round(0x9E37_79B1, 0x1716_1514_1312_1110) == 0xBB07_AB33_48A1_553F
  {
    hide Mul, Rotate, Xxh64.Round;
    Product(0x1716_1514_1312_1110, 0xC2B2_AE3D_27D4_EB4F, 0x118E_D90A_6497_2EF4, 0xB8B8_6B13_097C_F3F0, TWO_64);
    Turned(0xB8B8_6B13_A7B4_6DA1, 0x8000_0000, 0x2_0000_0000, 0x5C5C_3589, 0x1_A7B4_6DA1);
    Product(0xD3DA_36D0_DC5C_3589, 0x9E37_79B1_85EB_CA87, 0x82EE_966B_BB7C_5ECE, 0xBB07_AB33_48A1_553F, TWO_64);
    RoundIs64(0x9E37_79B1, 0x1716_1514_1312_1110, 0xB8B8_6B13_097C_F3F0,
      0xB8B8_6B13_A7B4_6DA1, 0xD3DA_36D0_DC5C_3589, 0xBB07_AB33_48A1_553F);
  }

  lemma Lane64At3()
    ensures Xxh64.Round(0x61C8_864F_184B_AF2A, 0x1F1E_1D1C_1B1A_1918) == 0x8A25_BB2D_27F9_1C07
  {
    hide Mul, Rotate, Xxh64.Round;
    Product(0x1F1E_1D1C_1B1A_1918, 0xC2B2_AE3D_27D4_EB4F, 0x17AA_8A2D_70E2_2141, 0x7761_7EB4_C1F6_C668, TWO_64);
    Turned(0xD92A_0503_DA42_7592, 0x8000_0000, 0x2_0000_0000, 0x6C95_0281, 0x1_DA42_7592);
    Product(0xED21_3AC9_6C95_0281, 0x9E37_79B1_85EB_CA87, 0x928D_E525_1719_D1CA, 0x8A25_BB2D_27F9_1C07, TWO_64);
    RoundIs64(0x61C8_864F_184B_AF2A, 0x1F1E_1D1C_1B1A_1918, 0x7761_7EB4_C1F6_C668,
      0xD92A_0503_DA42_7592, 0xED21_3AC9_6C95_0281, 0x8A25_BB2D_27F9_1C07);
  }

  lemma Stripe64()
    ensures Absorb(Xxh64.Round, 8, Xxh64.Start(0x9E37_79B1), COUNT) == Lanes(
      0xE496_2682_C06B_5E99, 0xB3B4_367C_9FC3_2561,
      0xBB07_AB33_48A1_553F, 0x8A25_BB2D_27F9_1C07)
  {
    hide Absorb, ReadLE, Xxh64.Round, Xxh64.Start;
    Start64();
    Words8();
    Lane64At0();
    Lane64At1();
    Lane64At2();
    Lane64At3();
    AbsorbOne(Xxh64.Round, 8, Xxh64.Start(0x9E37_79B1), COUNT);
  }

  lemma Rotations64()
    ensures Xxh64.Plus(Xxh64.Plus(Xxh64.Plus(Xxh64.Rotl1(0xE496_2682_C06B_5E99), Xxh64.Rotl7(0xB3B4_367C_9FC3_2561)),
      Xxh64.Rotl12(0xBB07_AB33_48A1_553F)), Xxh64.Rotl18(0x8A25_BB2D_27F9_1C07)) == 0xAAF_5FC3_E7DB_9252
  {
    hide Rotate;
    Turned(0xE496_2682_C06B_5E99, 0x2, 0x8000_0000_0000_0000, 0x1, 0x6496_2682_C06B_5E99);
    Turned(0xB3B4_367C_9FC3_2561, 0x80, 0x200_0000_0000_0000, 0x59, 0x1B4_367C_9FC3_2561);
    Turned(0xBB07_AB33_48A1_553F, 0x1000, 0x10_0000_0000_0000, 0xBB0, 0x7_AB33_48A1_553F);
    Turned(0x8A25_BB2D_27F9_1C07, 0x4_0000, 0x4000_0000_0000, 0x2_2896, 0x3B2D_27F9_1C07);
  }

  lemma MergeIs(acc: nat, val: nat, r: nat, x: nat, t: nat, h: nat)
    requires Xxh64.Round(0, val) == r && Xor(acc, r) == x && Mul(x, 0x9E37_79B1_85EB_CA87, TWO_64) == t
    requires Add(t, 0x85EB_CA77_C2B2_AE63, TWO_64) == h
    ensures Xxh64.MergeRound(acc, val) == h
  {}

  lemma Merged0Round()
    ensures Xxh64.Round(0x0, 0xE496_2682_C06B_5E99) == 0x73B0_E39F_188C_C92E
  {
    hide Mul, Rotate, Xxh64.Round;
    Product(0xE496_2682_C06B_5E99, 0xC2B2_AE3D_27D4_EB4F, 0xADD9_552A_8640_329A, 0xBB8B_25C4_96AC_A437, TWO_64);
    Turned(0xBB8B_25C4_96AC_A437, 0x8000_0000, 0x2_0000_0000, 0x5DC5_92E2, 0x96AC_A437);
    Product(0x4B56_521B_DDC5_92E2, 0x9E37_79B1_85EB_CA87, 0x2E8F_9A08_E1C3_C3B0, 0x73B0_E39F_188C_C92E, TWO_64);
    RoundIs64(0x0, 0xE496_2682_C06B_5E99, 0xBB8B_25C4_96AC_A437,
      0xBB8B_25C4_96AC_A437, 0x4B56_521B_DDC5_92E2, 0x73B0_E39F_188C_C92E);
  }

  lemma Merged0Xor()
    ensures Xor(0xAAF_5FC3_E7DB_9252, 0x73B0_E39F_188C_C92E) == 0x791F_BC5C_FF57_5B7C
  {
    hide Xor, Digit;
    Row0(); Row2(); Row3(); Row5(); Row7(); Row9(); Row10(); Row11(); Row12(); Row13(); Row14(); Row15();
    NoDigits();
    FourDigits(0x0, 0x0, 0x0, 0xA, 0xA, 0xF, 0x7, 0x3, 0xB, 0x0);
    FourDigits(0xAAF, 0x73B0, 0x5, 0xF, 0xC, 0x3, 0xE, 0x3, 0x9, 0xF);
    FourDigits(0xAAF_5FC3, 0x73B0_E39F, 0xE, 0x7, 0xD, 0xB, 0x1, 0x8, 0x8, 0xC);
    FourDigits(0xAAF_5FC3_E7DB, 0x73B0_E39F_188C, 0x9, 0x2, 0x5, 0x2, 0xC, 0x9, 0x2, 0xE);
  }

  lemma Merged0()
    ensures Xxh64.MergeRound(0xAAF_5FC3_E7DB_9252, 0xE496_2682_C06B_5E99) == 0xAF98_2571_BEC7_C4C7
  {
    hide Xor, Mul, Xxh64.Round, Xxh64.MergeRound;
    Merged0Round();
    Merged0Xor();
    Product(0x791F_BC5C_FF57_5B7C, 0x9E37_79B1_85EB_CA87, 0x4ADB_D5A6_DBE9_0409, 0x29AC_5AF9_FC15_1664, TWO_64);
    MergeIs(0xAAF_5FC3_E7DB_9252, 0xE496_2682_C06B_5E99, 0x73B0_E39F_188C_C92E, 0x791F_BC5C_FF57_5B7C,
      0x29AC_5AF9_FC15_1664, 0xAF98_2571_BEC7_C4C7);
  }

  lemma Merged1Round()
    ensures Xxh64.Round(0x0, 0xB3B4_367C_9FC3_2561) == 0xF145_8175_E8D9_8AD5
  {
    hide Mul, Rotate, Xxh64.Round;
    Product(0xB3B4_367C_9FC3_2561, 0xC2B2_AE3D_27D4_EB4F, 0x88AB_FEE7_BEA8_9304, 0x3286_1587_2BDC_93EF, TWO_64);
    Turned(0x3286_1587_2BDC_93EF, 0x8000_0000, 0x2_0000_0000, 0x1943_0AC3, 0x1_2BDC_93EF);
    Product(0x95EE_49F7_9943_0AC3, 0x9E37_79B1_85EB_CA87, 0x5CA9_8F1E_4DEF_5E75, 0xF145_8175_E8D9_8AD5, TWO_64);
    RoundIs64(0x0, 0xB3B4_367C_9FC3_2561, 0x3286_1587_2BDC_93EF,
      0x3286_1587_2BDC_93EF, 0x95EE_49F7_9943_0AC3, 0xF145_8175_E8D9_8AD5);
  }

  lemma Merged1Xor()
    ensures Xor(0xAF98_2571_BEC7_C4C7, 0xF145_8175_E8D9_8AD5) == 0x5EDD_A404_561E_4E12
  {
    hide Xor, Digit;
    Row1(); Row2(); Row4(); Row5(); Row7(); Row8(); Row9(); Row10(); Row11(); Row12(); Row14(); Row15();
    NoDigits();
    FourDigits(0x0, 0x0, 0xA, 0xF, 0x9, 0x8, 0xF, 0x1, 0x4, 0x5);
    FourDigits(0xAF98, 0xF145, 0x2, 0x5, 0x7, 0x1, 0x8, 0x1, 0x7, 0x5);
    FourDigits(0xAF98_2571, 0xF145_8175, 0xB, 0xE, 0xC, 0x7, 0xE, 0x8, 0xD, 0x9);
    FourDigits(0xAF98_2571_BEC7, 0xF145_8175_E8D9, 0xC, 0x4, 0xC, 0x7, 0x8, 0xA, 0xD, 0x5);
  }

  lemma Merged1()
    ensures Xxh64.MergeRound(0xAF98_2571_BEC7_C4C7, 0xB3B4_367C_9FC3_2561) == 0xA9_FD88_1ACE_0DE1
  {
    hide Xor, Mul, Xxh64.Round, Xxh64.MergeRound;
    Merged1Round();
    Merged1Xor();
    Product(0x5EDD_A404_561E_4E12, 0x9E37_79B1_85EB_CA87, 0x3AA1_59F1_757A_2F1E, 0x7ABE_3310_581B_5F7E, TWO_64);
    MergeIs(0xAF98_2571_BEC7_C4C7, 0xB3B4_367C_9FC3_2561, 0xF145_8175_E8D9_8AD5, 0x5EDD_A404_561E_4E12,
      0x7ABE_3310_581B_5F7E, 0xA9_FD88_1ACE_0DE1);
  }

  lemma Merged2Round()
    ensures Xxh64.Round(0x0, 0xBB07_AB33_48A1_553F) == 0xD141_11DF_2FEE_2C54
  {
    hide Mul, Rotate, Xxh64.Round;
    Product(0xBB07_AB33_48A1_553F, 0xC2B2_AE3D_27D4_EB4F, 0x8E3E_5A5D_CAFD_22B5, 0x523E_C419_B436_2371, TWO_64);
    Turned(0x523E_C419_B436_2371, 0x8000_0000, 0x2_0000_0000, 0x291F_620C, 0x1_B436_2371);
    Product(0xDA1B_11B8_A91F_620C, 0x9E37_79B1_85EB_CA87, 0x86CB_F86E_D13E_3078, 0xD141_11DF_2FEE_2C54, TWO_64);
    RoundIs64(0x0, 0xBB07_AB33_48A1_553F, 0x523E_C419_B436_2371,
      0x523E_C419_B436_2371, 0xDA1B_11B8_A91F_620C, 0xD141_11DF_2FEE_2C54);
  }

  lemma Merged2Xor()
    ensures Xor(0xA9_FD88_1ACE_0DE1, 0xD141_11DF_2FEE_2C54) == 0xD1E8_EC57_3520_21B5
  {
    hide Xor, Digit;
    Row0(); Row1(); Row8(); Row9(); Row10(); Row12(); Row13(); Row14(); Row15();
    NoDigits();
    FourDigits(0x0, 0x0, 0x0, 0x0, 0xA, 0x9, 0xD, 0x1, 0x4, 0x1);
    FourDigits(0xA9, 0xD141, 0xF, 0xD, 0x8, 0x8, 0x1, 0x1, 0xD, 0xF);
    FourDigits(0xA9_FD88, 0xD141_11DF, 0x1, 0xA, 0xC, 0xE, 0x2, 0xF, 0xE, 0xE);
    FourDigits(0xA9_FD88_1ACE, 0xD141_11DF_2FEE, 0x0, 0xD, 0xE, 0x1, 0x2, 0xC, 0x5, 0x4);
  }

  lemma Merged2()
    ensures Xxh64.MergeRound(0xA9_FD88_1ACE_0DE1, 0xBB07_AB33_48A1_553F) == 0x23ED_8D87_1B64_46D6
  {
    hide Xor, Mul, Xxh64.Round, Xxh64.MergeRound;
    Merged2Round();
    Merged2Xor();
    Product(0xD1E8_EC57_3520_21B5, 0x9E37_79B1_85EB_CA87, 0x81BB_3EB1_4116_38C7, 0x9E01_C30F_58B1_9873, TWO_64);
    MergeIs(0xA9_FD88_1ACE_0DE1, 0xBB07_AB33_48A1_553F, 0xD141_11DF_2FEE_2C54, 0xD1E8_EC57_3520_21B5,
      0x9E01_C30F_58B1_9873, 0x23ED_8D87_1B64_46D6);
  }

  lemma Merged3Round()
    ensures Xxh64.Round(0x0, 0x8A25_BB2D_27F9_1C07) == 0xB003_0EAB_0626_B882
  {
    hide Mul, Rotate, Xxh64.Round;
    Product(0x8A25_BB2D_27F9_1C07, 0xC2B2_AE3D_27D4_EB4F, 0x6911_041B_0365_831E, 0xC939_B3DC_4966_1329, TWO_64);
    Turned(0xC939_B3DC_4966_1329, 0x8000_0000, 0x2_0000_0000, 0x649C_D9EE, 0x4966_1329);
    Product(0x24B3_0994_E49C_D9EE, 0x9E37_79B1_85EB_CA87, 0x16AE_73D3_0699_BD90, 0xB003_0EAB_0626_B882, TWO_64);
    RoundIs64(0x0, 0x8A25_BB2D_27F9_1C07, 0xC939_B3DC_4966_1329,
      0xC939_B3DC_4966_1329, 0x24B3_0994_E49C_D9EE, 0xB003_0EAB_0626_B882);
  }

  lemma Merged3Xor()
    ensures Xor(0x23ED_8D87_1B64_46D6, 0xB003_0EAB_0626_B882) == 0x93EE_832C_1D42_FE54
  {
    hide Xor, Digit;
    Row1(); Row2(); Row3(); Row4(); Row6(); Row7(); Row8(); Row11(); Row13(); Row14();
    NoDigits();
    FourDigits(0x0, 0x0, 0x2, 0x3, 0xE, 0xD, 0xB, 0x0, 0x0, 0x3);
    FourDigits(0x23ED, 0xB003, 0x8, 0xD, 0x8, 0x7, 0x0, 0xE, 0xA, 0xB);
    FourDigits(0x23ED_8D87, 0xB003_0EAB, 0x1, 0xB, 0x6, 0x4, 0x0, 0x6, 0x2, 0x6);
    FourDigits(0x23ED_8D87_1B64, 0xB003_0EAB_0626, 0x4, 0x6, 0xD, 0x6, 0xB, 0x8, 0x8, 0x2);
  }

  lemma Merged3()
    ensures Xxh64.MergeRound(0x23ED_8D87_1B64_46D6, 0x8A25_BB2D_27F9_1C07) == 0x7279_FC87_28D1_14AF
  {
    hide Xor, Mul, Xxh64.Round, Xxh64.MergeRound;
    Merged3Round();
    Merged3Xor();
    Product(0x93EE_832C_1D42_FE54, 0x9E37_79B1_85EB_CA87, 0x5B6D_4385_B9D5_58D1, 0xEC8E_320F_661E_664C, TWO_64);
    MergeIs(0x23ED_8D87_1B64_46D6, 0x8A25_BB2D_27F9_1C07, 0xB003_0EAB_0626_B882, 0x93EE_832C_1D42_FE54,
      0xEC8E_320F_661E_664C, 0x7279_FC87_28D1_14AF);
  }

  lemma Converged64()
    ensures Xxh64.Converge(Lanes(
      0xE496_2682_C06B_5E99, 0xB3B4_367C_9FC3_2561,
      0xBB07_AB33_48A1_553F, 0x8A25_BB2D_27F9_1C07)) == 0x7279_FC87_28D1_14AF
  {
    hide Xxh64.MergeRound, Xxh64.Rotl1, Xxh64.Rotl7, Xxh64.Rotl12, Xxh64.Rotl18, Xxh64.Plus;
    Rotations64();
    Merged0();
    Merged1();
    Merged2();
    Merged3();
  }

  lemma Step8Is(h: nat, w: seq<byte>, val: nat, r: nat, x: nat, y: nat, t: nat, z: nat)
    requires ReadLE(w) == val && Xxh64.Round(0, val) == r && Xor(h, r) == x
    requires Rotate(x, 0x800_0000, 0x20_0000_0000) == y && Mul(y, 0x9E37_79B1_85EB_CA87, TWO_64) == t
    requires Add(t, 0x85EB_CA77_C2B2_AE63, TWO_64) == z
    ensures Xxh64.Process8(h, w) == z
  {}

  lemma Step4Is(h: nat, w: seq<byte>, val: nat, r: nat, x: nat, y: nat, t: nat, z: nat)
    requires ReadLE(w) == val && Mul(val, 0x9E37_79B1_85EB_CA87, TWO_64) == r && Xor(h, r) == x
    requires Rotate(x, 0x80_0000, 0x200_0000_0000) == y && Mul(y, 0xC2B2_AE3D_27D4_EB4F, TWO_64) == t
    requires Add(t, 0x1656_67B1_9E37_79F9, TWO_64) == z
    ensures Xxh64.Process4(h, w) == z
  {}

  lemma Step1Is(h: nat, b: byte, r: nat, x: nat, y: nat, z: nat)
    requires Mul(b as nat, 0x27D4_EB2F_1656_67C5, TWO_64) == r && Xor(h, r) == x
    requires Rotate(x, 0x800, 0x20_0000_0000_0000) == y && Mul(y, 0x9E37_79B1_85EB_CA87, TWO_64) == z
    ensures Xxh64.Process1(h, b) == z
  {}

  lemma Tail8Round()
    ensures Xxh64.Round(0x0, 0x2726_2524_2322_2120) == 0x8E6D_3B08_ECFE_83AD
  {
    hide Mul, Rotate, Xxh64.Round;
    Product(0x2726_2524_2322_2120, 0xC2B2_AE3D_27D4_EB4F, 0x1DC6_3B50_7D2D_138E, 0x360A_9256_7A70_98E0, TWO_64);
    Turned(0x360A_9256_7A70_98E0, 0x8000_0000, 0x2_0000_0000, 0x1B05_492B, 0x7A70_98E0);
    Product(0x3D38_4C70_1B05_492B, 0x9E37_79B1_85EB_CA87, 0x25D6_035F_ACD7_8A66, 0x8E6D_3B08_ECFE_83AD, TWO_64);
    RoundIs64(0x0, 0x2726_2524_2322_2120, 0x360A_9256_7A70_98E0,
      0x360A_9256_7A70_98E0, 0x3D38_4C70_1B05_492B, 0x8E6D_3B08_ECFE_83AD);
  }

  lemma Tail8Xor()
    ensures Xor(0x7279_FC87_28D1_14DC, 0x8E6D_3B08_ECFE_83AD) == 0xFC14_C78F_C42F_9771
  {
    hide Xor, Digit;
    Row1(); Row2(); Row4(); Row7(); Row8(); Row9(); Row12(); Row13(); Row15();
    NoDigits();
    FourDigits(0x0, 0x0, 0x7, 0x2, 0x7, 0x9, 0x8, 0xE, 0x6, 0xD);
    FourDigits(0x7279, 0x8E6D, 0xF, 0xC, 0x8, 0x7, 0x3, 0xB, 0x0, 0x8);
    FourDigits(0x7279_FC87, 0x8E6D_3B08, 0x2, 0x8, 0xD, 0x1, 0xE, 0xC, 0xF, 0xE);
    FourDigits(0x7279_FC87_28D1, 0x8E6D_3B08_ECFE, 0x1, 0x4, 0xD, 0xC, 0x8, 0x3, 0xA, 0xD);
  }

  lemma Tail8()
    ensures Xxh64.Process8(0x7279_FC87_28D1_14DC, COUNT[32..40]) == 0xCFB6_A5F9_AA69_B007
  {
    hide Xor, ReadLE, Mul, Rotate, Xxh64.Round, Xxh64.Process8;
    Words8();
    Tail8Round();
    Tail8Xor();
    Turned(0xFC14_C78F_C42F_9771, 0x800_0000, 0x20_0000_0000, 0x7E0_A63C, 0xF_C42F_9771);
    Product(0x7E21_7CBB_8FE0_A63C, 0x9E37_79B1_85EB_CA87, 0x4DF4_0022_DA30_06E0, 0x49CA_DB81_E7B7_01A4, TWO_64);
    Step8Is(0x7279_FC87_28D1_14DC, COUNT[32..40], 0x2726_2524_2322_2120, 0x8E6D_3B08_ECFE_83AD, 0xFC14_C78F_C42F_9771,
      0x7E21_7CBB_8FE0_A63C, 0x49CA_DB81_E7B7_01A4, 0xCFB6_A5F9_AA69_B007);
  }

  lemma Tail4Xor()
    ensures Xor(0xCFB6_A5F9_AA69_B007, 0x63C7_05E3_976D_4418) == 0xAC71_A01A_3D04_F41F
  {
    hide Xor, Digit;
    Row0(); Row5(); Row6(); Row7(); Row9(); Row10(); Row11(); Row12(); Row15();
    NoDigits();
    FourDigits(0x0, 0x0, 0xC, 0xF, 0xB, 0x6, 0x6, 0x3, 0xC, 0x7);
    FourDigits(0xCFB6, 0x63C7, 0xA, 0x5, 0xF, 0x9, 0x0, 0x5, 0xE, 0x3);
    FourDigits(0xCFB6_A5F9, 0x63C7_05E3, 0xA, 0xA, 0x6, 0x9, 0x9, 0x7, 0x6, 0xD);
    FourDigits(0xCFB6_A5F9_AA69, 0x63C7_05E3_976D, 0xB, 0x0, 0x0, 0x7, 0x4, 0x4, 0x1, 0x8);
  }

  lemma Tail4()
    ensures Xxh64.Process4(0xCFB6_A5F9_AA69_B007, COUNT[40..44]) == 0x4B4E_6184_E3B9_F229
  {
    hide Xor, ReadLE, Mul, Rotate, Xxh64.Process4;
    Words4();
    Tail4Xor();
    Product(0x2B2A_2928, 0x9E37_79B1_85EB_CA87, 0x1AAD_5FFA, 0x63C7_05E3_976D_4418, TWO_64);
    Turned(0xAC71_A01A_3D04_F41F, 0x80_0000, 0x200_0000_0000, 0x56_38D0, 0x1A_3D04_F41F);
    Product(0xD1E_827A_0FD6_38D0, 0xC2B2_AE3D_27D4_EB4F, 0x9FA_4705_17DD_F70E, 0x34F7_F9D3_4582_7830, TWO_64);
    Step4Is(0xCFB6_A5F9_AA69_B007, COUNT[40..44], 0x2B2A_2928, 0x63C7_05E3_976D_4418, 0xAC71_A01A_3D04_F41F,
      0xD1E_827A_0FD6_38D0, 0x34F7_F9D3_4582_7830, 0x4B4E_6184_E3B9_F229);
  }

  lemma Tail1Xor()
    ensures Xor(0x4B4E_6184_E3B9_F229, 0xD898_6C17_D6D9_D5DC) == 0x93D6_0D93_3560_27F5
  {
    hide Xor, Digit;
    Row1(); Row2(); Row3(); Row4(); Row6(); Row8(); Row9(); Row11(); Row14(); Row15();
    NoDigits();
    FourDigits(0x0, 0x0, 0x4, 0xB, 0x4, 0xE, 0xD, 0x8, 0x9, 0x8);
    FourDigits(0x4B4E, 0xD898, 0x6, 0x1, 0x8, 0x4, 0x6, 0xC, 0x1, 0x7);
    FourDigits(0x4B4E_6184, 0xD898_6C17, 0xE, 0x3, 0xB, 0x9, 0xD, 0x6, 0xD, 0x9);
    FourDigits(0x4B4E_6184_E3B9, 0xD898_6C17_D6D9, 0xF, 0x2, 0x2, 0x9, 0xD, 0x5, 0xD, 0xC);
  }

  lemma Tail1()
    ensures Xxh64.Process1(0x4B4E_6184_E3B9_F229, 44) == 0x31B5_3989_71D2_B352
  {
    hide Xor, Mul, Rotate, Xxh64.Process1;
    Tail1Xor();
    Product(0x2C, 0x27D4_EB2F_1656_67C5, 0x6, 0xD898_6C17_D6D9_D5DC, TWO_64);
    Turned(0x93D6_0D93_3560_27F5, 0x800, 0x20_0000_0000_0000, 0x49E, 0x16_0D93_3560_27F5);
    Product(0xB06C_99AB_013F_AC9E, 0x9E37_79B1_85EB_CA87, 0x6D09_420A_3A85_8F24, 0x31B5_3989_71D2_B352, TWO_64);
    Step1Is(0x4B4E_6184_E3B9_F229, 44, 0xD898_6C17_D6D9_D5DC, 0x93D6_0D93_3560_27F5,
      0xB06C_99AB_013F_AC9E, 0x31B5_3989_71D2_B352);
  }

  lemma TailOf13(h: nat, tail: seq<byte>)
    requires |tail| == 13
    ensures Xxh64.MixTail(h, tail) ==
      Xxh64.Process1(Xxh64.Process4(Xxh64.Process8(h, tail[..8]), tail[8..12]), tail[12])
  {
    hide Xxh64.Process8, Xxh64.Process4, Xxh64.Process1;
    var h8 := Xxh64.Process8(h, tail[..8]);
    assert tail[8..][..4] == tail[8..12] && tail[8..][4..] == tail[12..] && tail[12..][1..] == [];
    var h4 := Xxh64.Process4(h8, tail[8..12]);
    assert tail[12..][0] == tail[12];
    assert Xxh64.MixTail(h8, tail[8..]) == Xxh64.MixTail(h4, tail[12..]);
    assert Xxh64.MixTail(h4, tail[12..]) == Xxh64.MixTail(Xxh64.Process1(h4, tail[12]), []);
  }

  lemma Tail64()
    ensures Xxh64.MixTail(0x7279_FC87_28D1_14DC, COUNT[32..]) == 0x31B5_3989_71D2_B352
  {
    hide Xxh64.MixTail, Xxh64.Process8, Xxh64.Process4, Xxh64.Process1;
    TailOf13(0x7279_FC87_28D1_14DC, COUNT[32..]);
    assert COUNT[32..][..8] == COUNT[32..40] && COUNT[32..][8..12] == COUNT[40..44] && COUNT[32..][12] == 44;
    Tail8();
    Tail4();
    Tail1();
  }

  lemma HashIs64(input: seq<byte>, seed: nat, v: Lanes<nat>, h: nat, z: nat)
    requires |input| == 45 && Absorb(Xxh64.Round, 8, Xxh64.Start(seed), input) == v && Xxh64.Converge(v) == h
    requires Xxh64.MixTail(Add(h, 45, TWO_64), input[32..]) == z
    ensures Xxh64.Hash(input, seed) == Xxh64.Avalanche(z)
  {
    hide Absorb, Xxh64.Converge, Xxh64.MixTail, Xxh64.Avalanche, Xxh64.Round, Xxh64.Start;
  }

  lemma LastAvalanche64Xor1()
    ensures Xor(0x31B5_3989_71D2_B352, 0x18DA_9CC4) == 0x31B5_3989_6908_2F96
  {
    hide Xor, Digit;
    Row1(); Row2(); Row3(); Row5(); Row7(); Row11(); Row13();
    NothingToCombine(0x31B5_3989);
    FourDigits(0x31B5_3989, 0x0, 0x7, 0x1, 0xD, 0x2, 0x1, 0x8, 0xD, 0xA);
    FourDigits(0x31B5_3989_71D2, 0x18DA, 0xB, 0x3, 0x5, 0x2, 0x9, 0xC, 0xC, 0x4);
  }

  lemma LastAvalanche64Xor2()
    ensures Xor(0xA120_6997_2F6D_614A, 0x5_0903_4CB9) == 0xA120_6992_266E_2DF3
  {
    hide Xor, Digit;
    Row1(); Row2(); Row4(); Row6(); Row7(); Row9(); Row10(); Row13(); Row15();
    NothingToCombine(0xA120);
    FourDigits(0xA120, 0x0, 0x6, 0x9, 0x9, 0x7, 0x0, 0x0, 0x0, 0x5);
    FourDigits(0xA120_6997, 0x5, 0x2, 0xF, 0x6, 0xD, 0x0, 0x9, 0x0, 0x3);
    FourDigits(0xA120_6997_2F6D, 0x5_0903, 0x6, 0x1, 0x4, 0xA, 0x4, 0xC, 0xB, 0x9);
  }

  lemma LastAvalanche64Xor3()
    ensures Xor(0x24D7_8F5C_4E17_8C5B, 0x24D7_8F5C) == 0x24D7_8F5C_6AC0_0307
  {
    hide Xor, Digit;
    Row1(); Row4(); Row5(); Row7(); Row8(); Row11(); Row12(); Row14();
    NothingToCombine(0x24D7_8F5C);
    FourDigits(0x24D7_8F5C, 0x0, 0x4, 0xE, 0x1, 0x7, 0x2, 0x4, 0xD, 0x7);
    FourDigits(0x24D7_8F5C_4E17, 0x24D7, 0x8, 0xC, 0x5, 0xB, 0x8, 0xF, 0x5, 0xC);
  }

  lemma LastAvalanche64()
    ensures Xxh64.Avalanche(0x31B5_3989_71D2_B352) == 0x24D7_8F5C_6AC0_0307
  {
    hide Xor, Mul, Xxh64.Avalanche;
    LastAvalanche64Xor1();
    LastAvalanche64Xor2();
    LastAvalanche64Xor3();
    Product(0x31B5_3989_6908_2F96, 0xC2B2_AE3D_27D4_EB4F, 0x25CE_0771_3029_4A6A, 0xA120_6997_2F6D_614A, TWO_64);
    Product(0xA120_6992_266E_2DF3, 0x1656_67B1_9E37_79F9, 0xE0F_2B39_DBDE_185D, 0x24D7_8F5C_4E17_8C5B, TWO_64);
    AvalancheIs64(0x31B5_3989_71D2_B352, 0x18DA_9CC4, 0x31B5_3989_6908_2F96, 0xA120_6997_2F6D_614A, 0x5_0903_4CB9,
      0xA120_6992_266E_2DF3, 0x24D7_8F5C_4E17_8C5B, 0x24D7_8F5C, 0x24D7_8F5C_6AC0_0307);
  }

  /** XXH64 of a stripe, eight bytes, four bytes and one. */
  lemma Digest64()
    ensures Xxh64.Hash(COUNT, 0x9E37_79B1) == 0x24D7_8F5C_6AC0_0307
  {
    hide Absorb, Xxh64.Hash, Xxh64.Converge, Xxh64.MixTail, Xxh64.Avalanche, Xxh64.Round, Xxh64.Start;
    Stripe64();
    Converged64();
    Tail64();
    LastAvalanche64();
    var v := Lanes(
      0xE496_2682_C06B_5E99, 0xB3B4_367C_9FC3_2561,
      0xBB07_AB33_48A1_553F, 0x8A25_BB2D_27F9_1C07);
    HashIs64(COUNT, 0x9E37_79B1, v, 0x7279_FC87_28D1_14AF, 0x31B5_3989_71D2_B352);
  }

  lemma Start32()
    ensures Xxh32.Start(0x9E37_79B1) == Lanes(
      0xC25A_BDD9, 0x2423_4428,
      0x9E37_79B1, 0x0)
  {}

  lemma Lane32At0()
    ensures Xxh32.Round(0xC25A_BDD9, 0x302_0100) == 0xECCB_9862
  {
    hide Mul, Rotate, Xxh32.Round;
    Product(0x302_0100, 0x85EB_CA77, 0x192_CFBC, 0xE5B8_7700, TWO_32);
    Turned(0xA813_34D9, 0x2000, 0x8_0000, 0x1502, 0x3_34D9);
    Product(0x669B_3502, 0x9E37_79B1, 0x3F6A_06D5, 0xECCB_9862, TWO_32);
    RoundIs32(0xC25A_BDD9, 0x302_0100, 0xE5B8_7700,
      0xA813_34D9, 0x669B_3502, 0xECCB_9862);
  }

  lemma Lane32At1()
    ensures Xxh32.Round(0x2423_4428, 0x706_0504) == 0xF6D6_4D32
  {
    hide Mul, Rotate, Xxh32.Round;
    Product(0x706_0504, 0x85EB_CA77, 0x3AC_98AF, 0xB26D_7CDC, TWO_32);
    Turned(0xD690_C104, 0x2000, 0x8_0000, 0x1AD2, 0xC104);
    Product(0x1820_9AD2, 0x9E37_79B1, 0xEE9_5A06, 0xF6D6_4D32, TWO_32);
    RoundIs32(0x2423_4428, 0x706_0504, 0xB26D_7CDC,
      0xD690_C104, 0x1820_9AD2, 0xF6D6_4D32);
  }

  lemma Lane32At2()
    ensures Xxh32.Round(0x9E37_79B1, 0xB0A_0908) == 0xDA2E_7C3B
  {
    hide Mul, Rotate, Xxh32.Round;
    Product(0xB0A_0908, 0x85EB_CA77, 0x5C6_61A2, 0x7F22_82B8, TWO_32);
    Turned(0x1D59_FC69, 0x2000, 0x8_0000, 0x3AB, 0x1_FC69);
    Product(0x3F8D_23AB, 0x9E37_79B1, 0x2746_E18B, 0xDA2E_7C3B, TWO_32);
    RoundIs32(0x9E37_79B1, 0xB0A_0908, 0x7F22_82B8,
      0x1D59_FC69, 0x3F8D_23AB, 0xDA2E_7C3B);
  }

  lemma Lane32At3()
    ensures Xxh32.Round(0x0, 0xF0E_0D0C) == 0x4601_B75A
  {
    hide Mul, Rotate, Xxh32.Round;
    Product(0xF0E_0D0C, 0x85EB_CA77, 0x7E0_2A95, 0x4BD7_8894, TWO_32);
    Turned(0x4BD7_8894, 0x2000, 0x8_0000, 0x97A, 0x7_8894);
    Product(0xF112_897A, 0x9E37_79B1, 0x94FD_AE6D, 0x4601_B75A, TWO_32);
    RoundIs32(0x0, 0xF0E_0D0C, 0x4BD7_8894,
      0x4BD7_8894, 0xF112_897A, 0x4601_B75A);
  }

  lemma Stripe32()
    ensures Absorb(Xxh32.Round, 4, Xxh32.Start(0x9E37_79B1), COUNT[..21]) == Lanes(
      0xECCB_9862, 0xF6D6_4D32,
      0xDA2E_7C3B, 0x4601_B75A)
  {
    hide Absorb, ReadLE, Xxh32.Round, Xxh32.Start;
    Start32();
    Words4();
    Lane32At0();
    Lane32At1();
    Lane32At2();
    Lane32At3();
    assert COUNT[..21][0..4] == COUNT[0..4];
    assert COUNT[..21][4..8] == COUNT[4..8];
    assert COUNT[..21][8..12] == COUNT[8..12];
    assert COUNT[..21][12..16] == COUNT[12..16];
    AbsorbOne(Xxh32.Round, 4, Xxh32.Start(0x9E37_79B1), COUNT[..21]);
  }

  lemma Converged32()
    ensures Xxh32.Converge(Lanes(
      0xECCB_9862, 0xF6D6_4D32,
      0xDA2E_7C3B, 0x4601_B75A)) == 0x9EA_9FE8
  {
    hide Rotate;
    Turned(0xECCB_9862, 0x2, 0x8000_0000, 0x1, 0x6CCB_9862);
    Turned(0xF6D6_4D32, 0x80, 0x200_0000, 0x7B, 0xD6_4D32);
    Turned(0xDA2E_7C3B, 0x1000, 0x10_0000, 0xDA2, 0xE_7C3B);
    Turned(0x4601_B75A, 0x4_0000, 0x4000, 0x1_1806, 0x375A);
  }

  lemma Steps32Are(h: nat, w: seq<byte>, val: nat, t: nat, s: nat, y: nat, z: nat)
    requires ReadLE(w) == val && Mul(val, 0xC2B2_AE3D, TWO_32) == t && Add(h, t, TWO_32) == s
    requires Rotate(s, 0x2_0000, 0x8000) == y && Mul(y, 0x27D4_EB2F, TWO_32) == z
    ensures Xxh32.Process4(h, w) == z
  {}

  lemma ByteStep32Is(h: nat, b: byte, t: nat, s: nat, y: nat, z: nat)
    requires Mul(b as nat, 0x1656_67B1, TWO_32) == t && Add(h, t, TWO_32) == s
    requires Rotate(s, 0x800, 0x20_0000) == y && Mul(y, 0x9E37_79B1, TWO_32) == z
    ensures Xxh32.Process1(h, b) == z
  {}

  lemma TailOf5(h: nat, tail: seq<byte>)
    requires |tail| == 5
    ensures Xxh32.MixTail(h, tail) == Xxh32.Process1(Xxh32.Process4(h, tail[..4]), tail[4])
  {
    hide Xxh32.Process4, Xxh32.Process1;
    var h4 := Xxh32.Process4(h, tail[..4]);
    assert tail[4..][1..] == [] && tail[4..][0] == tail[4];
    assert Xxh32.MixTail(h4, tail[4..]) == Xxh32.MixTail(Xxh32.Process1(h4, tail[4]), []);
  }

  lemma Tail32()
    ensures Xxh32.MixTail(0x9EA_9FFD, COUNT[..21][16..]) == 0x85D8_0BBB
  {
    hide ReadLE, Mul, Rotate, Xxh32.MixTail, Xxh32.Process4, Xxh32.Process1;
    Words4();
    Product(0x1312_1110, 0xC2B2_AE3D, 0xE81_0078, 0xD006_F0D0, TWO_32);
    Turned(0xD9F1_90CD, 0x2_0000, 0x8000, 0x1_B3E3, 0x10CD);
    Product(0x219B_B3E3, 0x27D4_EB2F, 0x53A_AC38, 0xA6B3_67AD, TWO_32);
    Steps32Are(0x9EA_9FFD, COUNT[16..20], 0x1312_1110, 0xD006_F0D0, 0xD9F1_90CD, 0x219B_B3E3, 0xA6B3_67AD);
    Product(0x14, 0x1656_67B1, 0x1, 0xBEC0_19D4, TWO_32);
    Turned(0x6573_8181, 0x800, 0x20_0000, 0x32B, 0x13_8181);
    Product(0x9C0C_0B2B, 0x9E37_79B1, 0x6071_3FA8, 0x85D8_0BBB, TWO_32);
    ByteStep32Is(0xA6B3_67AD, 20, 0xBEC0_19D4, 0x6573_8181, 0x9C0C_0B2B, 0x85D8_0BBB);
    assert COUNT[..21][16..][..4] == COUNT[16..20] && COUNT[..21][16..][4] == 20;
    TailOf5(0x9EA_9FFD, COUNT[..21][16..]);
  }

  lemma HashIs32(input: seq<byte>, seed: nat, v: Lanes<nat>, h: nat, z: nat)
    requires |input| == 21 && Absorb(Xxh32.Round, 4, Xxh32.Start(seed), input) == v && Xxh32.Converge(v) == h
    requires Xxh32.MixTail(Add(h, 21, TWO_32), input[16..]) == z
    ensures Xxh32.Hash(input, seed) == Xxh32.Avalanche(z)
  {
    hide Absorb, Xxh32.Converge, Xxh32.MixTail, Xxh32.Avalanche, Xxh32.Round, Xxh32.Start;
  }

  lemma LastAvalanche32Xor1()
    ensures Xor(0x85D8_0BBB, 0x1_0BB0) == 0x85D9_000B
  {
    hide Xor, Digit;
    Row0(); Row5(); Row8(); Row11(); Row13();
    NoDigits();
    FourDigits(0x0, 0x0, 0x8, 0x5, 0xD, 0x8, 0x0, 0x0, 0x0, 0x1);
    FourDigits(0x85D8, 0x1, 0x0, 0xB, 0xB, 0xB, 0x0, 0xB, 0xB, 0x0);
  }

  lemma LastAvalanche32Xor2()
    ensures Xor(0x3300_B31D, 0x1_9805) == 0x3301_2B18
  {
    hide Xor, Digit;
    Row0(); Row1(); Row3(); Row11(); Row13();
    NoDigits();
    FourDigits(0x0, 0x0, 0x3, 0x3, 0x0, 0x0, 0x0, 0x0, 0x0, 0x1);
    FourDigits(0x3300, 0x1, 0xB, 0x3, 0x1, 0xD, 0x9, 0x8, 0x0, 0x5);
  }

  lemma LastAvalanche32Xor3()
    ensures Xor(0x1941_94B8, 0x1941) == 0x1941_8DF9
  {
    hide Xor, Digit;
    Row4(); Row8(); Row9(); Row11();
    NothingToCombine(0x1941);
    FourDigits(0x1941, 0x0, 0x9, 0x4, 0xB, 0x8, 0x1, 0x9, 0x4, 0x1);
  }

  lemma LastAvalanche32()
    ensures Xxh32.Avalanche(0x85D8_0BBB) == 0x1941_8DF9
  {
    hide Xor, Mul, Xxh32.Avalanche;
    LastAvalanche32Xor1();
    LastAvalanche32Xor2();
    LastAvalanche32Xor3();
    Product(0x85D9_000B, 0x85EB_CA77, 0x4605_0514, 0x3300_B31D, TWO_32);
    Product(0x3301_2B18, 0xC2B2_AE3D, 0x26CA_7C2F, 0x1941_94B8, TWO_32);
    AvalancheIs32(0x85D8_0BBB, 0x1_0BB0, 0x85D9_000B, 0x3300_B31D, 0x1_9805,
      0x3301_2B18, 0x1941_94B8, 0x1941, 0x1941_8DF9);
  }

  /** XXH32 of a stripe, four bytes and one. */
  lemma Digest32()
    ensures Xxh32.Hash(COUNT[..21], 0x9E37_79B1) == 0x1941_8DF9
  {
    hide Absorb, Xxh32.Hash, Xxh32.Converge, Xxh32.MixTail, Xxh32.Avalanche, Xxh32.Round, Xxh32.Start;
    Stripe32();
    Converged32();
    Tail32();
    LastAvalanche32();
    var v := Lanes(
      0xECCB_9862, 0xF6D6_4D32,
      0xDA2E_7C3B, 0x4601_B75A);
    HashIs32(COUNT[..21], 0x9E37_79B1, v, 0x9EA_9FE8, 0x85D8_0BBB);
  }
}
