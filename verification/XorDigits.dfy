/** Exclusive or, hexadecimal digit by digit, as the machine's own operator on four bits has it. */
module XorDigits {
  import opened Words

  function Digit(x: nat, y: nat): nat
    requires x < 16 && y < 16
  {
    ((x as bv4) ^ (y as bv4)) as nat
  }

  lemma AppendBit(a: nat, b: nat, p: nat, q: nat)
    requires p < 2 && q < 2
    ensures Xor(2 * a + p, 2 * b + q) == 2 * Xor(a, b) + Different(p, q)
  {}

  function Different(p: nat, q: nat): nat { if p != q then 1 else 0 }

  lemma Bits(x: nat) returns (p: nat, q: nat, r: nat, s: nat)
    requires x < 16
    ensures p < 2 && q < 2 && r < 2 && s < 2 && x == 8 * p + 4 * q + 2 * r + s
  {
    p, q, r, s := x / 8, x / 4 % 2, x / 2 % 2, x % 2;
  }

  lemma DigitOfBits(p: nat, q: nat, r: nat, s: nat, p': nat, q': nat, r': nat, s': nat)
    requires p < 2 && q < 2 && r < 2 && s < 2 && p' < 2 && q' < 2 && r' < 2 && s' < 2
    ensures Digit(8 * p + 4 * q + 2 * r + s, 8 * p' + 4 * q' + 2 * r' + s') ==
      8 * Different(p, p') + 4 * Different(q, q') + 2 * Different(r, r') + Different(s, s')
  {
    hide Digit;
    var x := 8 * p + 4 * q + 2 * r + s;
    if x < 8 {
      if x < 4 {
        if x == 0 { Row0(); } else if x == 1 { Row1(); } else if x == 2 { Row2(); } else { Row3(); }
      } else {
        if x == 4 { Row4(); } else if x == 5 { Row5(); } else if x == 6 { Row6(); } else { Row7(); }
      }
    } else if x < 12 {
      if x == 8 { Row8(); } else if x == 9 { Row9(); } else if x == 10 { Row10(); } else { Row11(); }
    } else {
      if x == 12 { Row12(); } else if x == 13 { Row13(); } else if x == 14 { Row14(); } else { Row15(); }
    }
  }

  /** The last digits are combined as the machine does it, and so are those before them. */
  lemma LastDigit(h: nat, k: nat, x: nat, y: nat)
    requires x < 16 && y < 16
    ensures Xor(16 * h + x, 16 * k + y) == 16 * Xor(h, k) + (((x as bv4) ^ (y as bv4)) as nat)
  {
    hide Xor, Digit;
    assert Digit(x, y) == ((x as bv4) ^ (y as bv4)) as nat by { DigitIs(x, y); }
    var p, q, r, s := Bits(x);
    var p', q', r', s' := Bits(y);
    AppendBit(h, k, p, p');
    AppendBit(2 * h + p, 2 * k + p', q, q');
    AppendBit(4 * h + 2 * p + q, 4 * k + 2 * p' + q', r, r');
    AppendBit(8 * h + 4 * p + 2 * q + r, 8 * k + 4 * p' + 2 * q' + r', s, s');
    DigitOfBits(p, q, r, s, p', q', r', s');
  }

  lemma DigitIs(x: nat, y: nat)
    requires x < 16 && y < 16
    ensures Digit(x, y) == ((x as bv4) ^ (y as bv4)) as nat
  {}

  lemma NoDigits()
    ensures Xor(0, 0) == 0
  {}

  lemma Row0()
    ensures Digit(0, 0) == 0 && Digit(0, 1) == 1 && Digit(0, 2) == 2 && Digit(0, 3) == 3
    ensures Digit(0, 4) == 4 && Digit(0, 5) == 5 && Digit(0, 6) == 6 && Digit(0, 7) == 7
    ensures Digit(0, 8) == 8 && Digit(0, 9) == 9 && Digit(0, 10) == 10 && Digit(0, 11) == 11
    ensures Digit(0, 12) == 12 && Digit(0, 13) == 13 && Digit(0, 14) == 14 && Digit(0, 15) == 15
  {}

  lemma Row1()
    ensures Digit(1, 0) == 1 && Digit(1, 1) == 0 && Digit(1, 2) == 3 && Digit(1, 3) == 2
    ensures Digit(1, 4) == 5 && Digit(1, 5) == 4 && Digit(1, 6) == 7 && Digit(1, 7) == 6
    ensures Digit(1, 8) == 9 && Digit(1, 9) == 8 && Digit(1, 10) == 11 && Digit(1, 11) == 10
    ensures Digit(1, 12) == 13 && Digit(1, 13) == 12 && Digit(1, 14) == 15 && Digit(1, 15) == 14
  {}

  lemma Row2()
    ensures Digit(2, 0) == 2 && Digit(2, 1) == 3 && Digit(2, 2) == 0 && Digit(2, 3) == 1
    ensures Digit(2, 4) == 6 && Digit(2, 5) == 7 && Digit(2, 6) == 4 && Digit(2, 7) == 5
    ensures Digit(2, 8) == 10 && Digit(2, 9) == 11 && Digit(2, 10) == 8 && Digit(2, 11) == 9
    ensures Digit(2, 12) == 14 && Digit(2, 13) == 15 && Digit(2, 14) == 12 && Digit(2, 15) == 13
  {}

  lemma Row3()
    ensures Digit(3, 0) == 3 && Digit(3, 1) == 2 && Digit(3, 2) == 1 && Digit(3, 3) == 0
    ensures Digit(3, 4) == 7 && Digit(3, 5) == 6 && Digit(3, 6) == 5 && Digit(3, 7) == 4
    ensures Digit(3, 8) == 11 && Digit(3, 9) == 10 && Digit(3, 10) == 9 && Digit(3, 11) == 8
    ensures Digit(3, 12) == 15 && Digit(3, 13) == 14 && Digit(3, 14) == 13 && Digit(3, 15) == 12
  {}

  lemma Row4()
    ensures Digit(4, 0) == 4 && Digit(4, 1) == 5 && Digit(4, 2) == 6 && Digit(4, 3) == 7
    ensures Digit(4, 4) == 0 && Digit(4, 5) == 1 && Digit(4, 6) == 2 && Digit(4, 7) == 3
    ensures Digit(4, 8) == 12 && Digit(4, 9) == 13 && Digit(4, 10) == 14 && Digit(4, 11) == 15
    ensures Digit(4, 12) == 8 && Digit(4, 13) == 9 && Digit(4, 14) == 10 && Digit(4, 15) == 11
  {}

  lemma Row5()
    ensures Digit(5, 0) == 5 && Digit(5, 1) == 4 && Digit(5, 2) == 7 && Digit(5, 3) == 6
    ensures Digit(5, 4) == 1 && Digit(5, 5) == 0 && Digit(5, 6) == 3 && Digit(5, 7) == 2
    ensures Digit(5, 8) == 13 && Digit(5, 9) == 12 && Digit(5, 10) == 15 && Digit(5, 11) == 14
    ensures Digit(5, 12) == 9 && Digit(5, 13) == 8 && Digit(5, 14) == 11 && Digit(5, 15) == 10
  {}

  lemma Row6()
    ensures Digit(6, 0) == 6 && Digit(6, 1) == 7 && Digit(6, 2) == 4 && Digit(6, 3) == 5
    ensures Digit(6, 4) == 2 && Digit(6, 5) == 3 && Digit(6, 6) == 0 && Digit(6, 7) == 1
    ensures Digit(6, 8) == 14 && Digit(6, 9) == 15 && Digit(6, 10) == 12 && Digit(6, 11) == 13
    ensures Digit(6, 12) == 10 && Digit(6, 13) == 11 && Digit(6, 14) == 8 && Digit(6, 15) == 9
  {}

  lemma Row7()
    ensures Digit(7, 0) == 7 && Digit(7, 1) == 6 && Digit(7, 2) == 5 && Digit(7, 3) == 4
    ensures Digit(7, 4) == 3 && Digit(7, 5) == 2 && Digit(7, 6) == 1 && Digit(7, 7) == 0
    ensures Digit(7, 8) == 15 && Digit(7, 9) == 14 && Digit(7, 10) == 13 && Digit(7, 11) == 12
    ensures Digit(7, 12) == 11 && Digit(7, 13) == 10 && Digit(7, 14) == 9 && Digit(7, 15) == 8
  {}

  lemma Row8()
    ensures Digit(8, 0) == 8 && Digit(8, 1) == 9 && Digit(8, 2) == 10 && Digit(8, 3) == 11
    ensures Digit(8, 4) == 12 && Digit(8, 5) == 13 && Digit(8, 6) == 14 && Digit(8, 7) == 15
    ensures Digit(8, 8) == 0 && Digit(8, 9) == 1 && Digit(8, 10) == 2 && Digit(8, 11) == 3
    ensures Digit(8, 12) == 4 && Digit(8, 13) == 5 && Digit(8, 14) == 6 && Digit(8, 15) == 7
  {}

  lemma Row9()
    ensures Digit(9, 0) == 9 && Digit(9, 1) == 8 && Digit(9, 2) == 11 && Digit(9, 3) == 10
    ensures Digit(9, 4) == 13 && Digit(9, 5) == 12 && Digit(9, 6) == 15 && Digit(9, 7) == 14
    ensures Digit(9, 8) == 1 && Digit(9, 9) == 0 && Digit(9, 10) == 3 && Digit(9, 11) == 2
    ensures Digit(9, 12) == 5 && Digit(9, 13) == 4 && Digit(9, 14) == 7 && Digit(9, 15) == 6
  {}

  lemma Row10()
    ensures Digit(10, 0) == 10 && Digit(10, 1) == 11 && Digit(10, 2) == 8 && Digit(10, 3) == 9
    ensures Digit(10, 4) == 14 && Digit(10, 5) == 15 && Digit(10, 6) == 12 && Digit(10, 7) == 13
    ensures Digit(10, 8) == 2 && Digit(10, 9) == 3 && Digit(10, 10) == 0 && Digit(10, 11) == 1
    ensures Digit(10, 12) == 6 && Digit(10, 13) == 7 && Digit(10, 14) == 4 && Digit(10, 15) == 5
  {}

  lemma Row11()
    ensures Digit(11, 0) == 11 && Digit(11, 1) == 10 && Digit(11, 2) == 9 && Digit(11, 3) == 8
    ensures Digit(11, 4) == 15 && Digit(11, 5) == 14 && Digit(11, 6) == 13 && Digit(11, 7) == 12
    ensures Digit(11, 8) == 3 && Digit(11, 9) == 2 && Digit(11, 10) == 1 && Digit(11, 11) == 0
    ensures Digit(11, 12) == 7 && Digit(11, 13) == 6 && Digit(11, 14) == 5 && Digit(11, 15) == 4
  {}

  lemma Row12()
    ensures Digit(12, 0) == 12 && Digit(12, 1) == 13 && Digit(12, 2) == 14 && Digit(12, 3) == 15
    ensures Digit(12, 4) == 8 && Digit(12, 5) == 9 && Digit(12, 6) == 10 && Digit(12, 7) == 11
    ensures Digit(12, 8) == 4 && Digit(12, 9) == 5 && Digit(12, 10) == 6 && Digit(12, 11) == 7
    ensures Digit(12, 12) == 0 && Digit(12, 13) == 1 && Digit(12, 14) == 2 && Digit(12, 15) == 3
  {}

  lemma Row13()
    ensures Digit(13, 0) == 13 && Digit(13, 1) == 12 && Digit(13, 2) == 15 && Digit(13, 3) == 14
    ensures Digit(13, 4) == 9 && Digit(13, 5) == 8 && Digit(13, 6) == 11 && Digit(13, 7) == 10
    ensures Digit(13, 8) == 5 && Digit(13, 9) == 4 && Digit(13, 10) == 7 && Digit(13, 11) == 6
    ensures Digit(13, 12) == 1 && Digit(13, 13) == 0 && Digit(13, 14) == 3 && Digit(13, 15) == 2
  {}

  lemma Row14()
    ensures Digit(14, 0) == 14 && Digit(14, 1) == 15 && Digit(14, 2) == 12 && Digit(14, 3) == 13
    ensures Digit(14, 4) == 10 && Digit(14, 5) == 11 && Digit(14, 6) == 8 && Digit(14, 7) == 9
    ensures Digit(14, 8) == 6 && Digit(14, 9) == 7 && Digit(14, 10) == 4 && Digit(14, 11) == 5
    ensures Digit(14, 12) == 2 && Digit(14, 13) == 3 && Digit(14, 14) == 0 && Digit(14, 15) == 1
  {}

  lemma Row15()
    ensures Digit(15, 0) == 15 && Digit(15, 1) == 14 && Digit(15, 2) == 13 && Digit(15, 3) == 12
    ensures Digit(15, 4) == 11 && Digit(15, 5) == 10 && Digit(15, 6) == 9 && Digit(15, 7) == 8
    ensures Digit(15, 8) == 7 && Digit(15, 9) == 6 && Digit(15, 10) == 5 && Digit(15, 11) == 4
    ensures Digit(15, 12) == 3 && Digit(15, 13) == 2 && Digit(15, 14) == 1 && Digit(15, 15) == 0
  {}

  function Hex4(a: nat, b: nat, c: nat, d: nat): nat { 0x1000 * a + 0x100 * b + 0x10 * c + d }

  lemma OneDigit(h: nat, k: nat, x: nat, y: nat)
    requires x < 16 && y < 16
    ensures Xor(16 * h + x, 16 * k + y) == 16 * Xor(h, k) + Digit(x, y)
  {
    hide Xor;
    LastDigit(h, k, x, y);
  }

  lemma {:induction false} NothingToCombine(a: nat)
    ensures Xor(a, 0) == a
  {
    if a > 0 { NothingToCombine(a / 2); }
  }

  /** Four more digits behind h and k. */
  lemma FourDigits(h: nat, k: nat, a: nat, b: nat, c: nat, d: nat, a': nat, b': nat, c': nat, d': nat)
    requires a < 16 && b < 16 && c < 16 && d < 16 && a' < 16 && b' < 16 && c' < 16 && d' < 16
    ensures Xor(0x1_0000 * h + Hex4(a, b, c, d), 0x1_0000 * k + Hex4(a', b', c', d')) ==
      0x1_0000 * Xor(h, k) + Hex4(Digit(a, a'), Digit(b, b'), Digit(c, c'), Digit(d, d'))
  {
    hide Xor, Digit;
    OneDigit(h, k, a, a');
    OneDigit(16 * h + a, 16 * k + a', b, b');
    OneDigit(0x100 * h + 16 * a + b, 0x100 * k + 16 * a' + b', c, c');
    OneDigit(0x1000 * h + 0x100 * a + 16 * b + c, 0x1000 * k + 0x100 * a' + 16 * b' + c', d, d');
  }
}
