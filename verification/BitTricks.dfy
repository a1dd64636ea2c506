/** The hash table's bit tricks on 64-bit sizes, against the plain functions they stand for. */
module BitTricks {
  import opened Words
  import opened PowersOfTwo

  function Or(a: nat, b: nat): nat
    decreases a + b
  {
    if a == 0 && b == 0 then 0
    else (if a % 2 == 1 || b % 2 == 1 then 1 else 0) + 2 * Or(a / 2, b / 2)
  }

  /** n >> k */
  function Shift(n: nat, k: nat): nat
    decreases k
  {
    if k == 0 then n else Shift(n / 2, k - 1)
  }

  function OrShift(n: nat, k: nat): nat { Or(n, Shift(n, k)) }

  /** Copies the highest bit into every lower one. */
  function Smear(n: nat): nat
  {
    OrShift(OrShift(OrShift(OrShift(OrShift(OrShift(n, 1), 2), 4), 8), 16), 32)
  }

  /** next_power_of_two: the decrement and the increment wrap around. */
  function NextPowerOfTwo(i: nat): (p: nat)
    requires i < TWO_64
    ensures p < TWO_64
  {
    (Smear((i + TWO_64 - 1) % TWO_64) + 1) % TWO_64
  }

  /** fibonacci_hash_policy::next_size_over, the size. */
  function NextSizeOver64(size: nat): nat
    requires size < TWO_64
  {
    var p := NextPowerOfTwo(size);
    if p > 2 then p else 2
  }

  // ---------------------------------------------------------------- shifting and or-ing

  lemma {:induction false} ShiftShift(n: nat, j: nat, k: nat)
    ensures Shift(Shift(n, j), k) == Shift(n, j + k)
    decreases j
  {
    if j > 0 { ShiftShift(n / 2, j - 1, k); }
  }

  lemma {:induction false} ShiftOr(a: nat, b: nat, k: nat)
    ensures Shift(Or(a, b), k) == Or(Shift(a, k), Shift(b, k))
    decreases k
  {
    if k > 0 {
      OrHalves(a, b);
      ShiftOr(a / 2, b / 2, k - 1);
    }
  }

  lemma OrHalves(a: nat, b: nat)
    ensures Or(a, b) / 2 == Or(a / 2, b / 2)
  {}

  lemma {:induction false} OrZero(a: nat)
    ensures Or(a, 0) == a
  {
    if a > 0 { OrZero(a / 2); }
  }

  /** Dividing by a power of two is shifting. */
  lemma {:induction false} ShiftAtMost(n: nat, k: nat)
    ensures Shift(n, k) * Pow2(k) <= n < Shift(n, k) * Pow2(k) + Pow2(k)
    decreases k
  {
    if k > 0 {
      ShiftAtMost(n / 2, k - 1);
      Doubled(Shift(n / 2, k - 1), Pow2(k - 1));
    }
  }

  lemma {:induction false} ShiftOnes(m: nat, k: nat)
    requires k <= m
    ensures Shift(Pow2(m) - 1, k) == Pow2(m - k) - 1
    decreases k
  {
    if k > 0 {
      assert (Pow2(m) - 1) / 2 == Pow2(m - 1) - 1;
      ShiftOnes(m - 1, k - 1);
    }
  }

  /** Or-ing d ones sets the low d bits and keeps the rest. */
  lemma {:induction false} OrOnes(a: nat, d: nat)
    ensures Or(a, Pow2(d) - 1) == Shift(a, d) * Pow2(d) + Pow2(d) - 1
    decreases d
  {
    if d == 0 {
      OrZero(a);
    } else {
      hide Or;
      var q, p := Shift(a / 2, d - 1), Pow2(d - 1);
      OrOdd(a, p - 1);
      OrOnes(a / 2, d - 1);
      Doubled(q, p);
    }
  }

  lemma OrOdd(a: nat, b: nat)
    ensures Or(a, 2 * b + 1) == 1 + 2 * Or(a / 2, b)
  {}

  lemma Doubled(q: nat, p: nat)
    ensures q * (2 * p) == 2 * (q * p)
  {}

  // ---------------------------------------------------------------- smearing

  /** n has `bits` bits, of which the top m are ones. */
  ghost predicate TopOnes(n: nat, bits: nat, m: nat)
  {
    m <= bits && Shift(n, bits - m) == Pow2(m) - 1
  }

  function Least(a: nat, b: nat): nat { if a <= b then a else b }

  /** One step of the smear doubles the run of ones at the top. */
  lemma OnesDouble(n: nat, bits: nat, m: nat)
    requires TopOnes(n, bits, m)
    ensures TopOnes(OrShift(n, m), bits, Least(2 * m, bits))
  {
    hide Or, Shift, Pow2;
    var m2 := Least(2 * m, bits);
    var d := m2 - m;
    var high := Shift(n, bits - m2);
    ShiftOr(n, Shift(n, m), bits - m2);
    ShiftShift(n, m, bits - m2);
    ShiftShift(n, bits - m2, d);
    ShiftShift(n, bits - m, m - d);
    ShiftOnes(m, m - d);
    OrOnes(high, d);
    Pow2Add(m, d);
    Joined(Pow2(m), Pow2(d));
  }

  lemma Joined(p: nat, q: nat)
    ensures (p - 1) * q + q - 1 == p * q - 1
  {}

  lemma OnesStep(n: nat, bits: nat, k: nat)
    requires TopOnes(n, bits, Least(k, bits))
    ensures TopOnes(OrShift(n, k), bits, Least(2 * k, bits))
  {
    if k == bits {
      OnesDouble(n, bits, k);
    } else if k < bits {
      OnesDouble(n, bits, k);
    } else {
      ShiftOnes(bits, bits);
      ShiftShift(n, bits, k - bits);
      ShiftZero(k - bits);
      OrZero(n);
    }
  }

  /** A number whose highest bit is bit k smears to all ones below and at it. */
  lemma SmearFills(n: nat, k: nat)
    requires k < 64 && Pow2(k) <= n < Pow2(k + 1)
    ensures Smear(n) == Pow2(k + 1) - 1
  {
    var bits := k + 1;
    TopBit(n, k);
    var n1 := OrShift(n, 1);
    var n2 := OrShift(n1, 2);
    var n4 := OrShift(n2, 4);
    var n8 := OrShift(n4, 8);
    var n16 := OrShift(n8, 16);
    hide OrShift;
    OnesStep(n, bits, 1);
    OnesStep(n1, bits, 2);
    OnesStep(n2, bits, 4);
    OnesStep(n4, bits, 8);
    OnesStep(n8, bits, 16);
    OnesStep(n16, bits, 32);
  }

  lemma {:induction false} TopBit(n: nat, k: nat)
    requires Pow2(k) <= n < Pow2(k + 1)
    ensures TopOnes(n, k + 1, 1)
  {
    if k > 0 { TopBit(n / 2, k - 1); }
  }

  lemma SmearZero()
    ensures Smear(0) == 0
  {
    ShiftZero(1); ShiftZero(2); ShiftZero(4); ShiftZero(8); ShiftZero(16); ShiftZero(32);
  }

  lemma {:induction false} ShiftZero(k: nat)
    ensures Shift(0, k) == 0
    decreases k
  {
    if k > 0 { ShiftZero(k - 1); }
  }

  lemma {:induction false} Log2Bounds(n: nat)
    requires n > 0
    ensures Pow2(Log2(n)) <= n < Pow2(Log2(n) + 1)
  {
    if n > 1 { Log2Bounds(n / 2); }
  }

  lemma Pow2At63And64()
    ensures Pow2(63) == 0x8000_0000_0000_0000 && Pow2(64) == TWO_64
  {
    hide Pow2;
    Pow2At4();
    Pow2Add(4, 4);
    Pow2Add(8, 8);
    Pow2Add(16, 16);
    Pow2Add(32, 32);
    Pow2Next(63);
  }

  lemma Pow2At4()
    ensures Pow2(4) == 0x10
  {}

  lemma Pow2Next(k: nat)
    ensures Pow2(k + 1) == 2 * Pow2(k)
  {}

  lemma BelowTwo64(n: nat)
    requires 0 < n < TWO_64
    ensures Log2(n) < 64 && Pow2(Log2(n) + 1) <= TWO_64
  {
    Log2Bounds(n);
    Pow2At63And64();
    Pow2Monotone(64, Log2(n));
    Pow2Monotone(Log2(n) + 1, 64);
  }

  // ---------------------------------------------------------------- sizes

  /**
   The next size is the least power of two that is at least two and the request,
   exactly for the requests up to 2^63; beyond, the increment wraps around.
   */
  lemma NextSizeIsLeastIff(size: nat)
    requires size < TWO_64
    ensures NextSizeOver64(size) == NextSizeOver(size) <==> size <= 0x8000_0000_0000_0000
    ensures size > 0x8000_0000_0000_0000 ==> NextSizeOver64(size) == 2
  {
    hide Smear, DoubleUntil;
    Pow2At63And64();
    if size == 0 {
      SmearFills(TWO_64 - 1, 63);
      assert NextSizeOver(0) == 2 by { DoubleUntilIsEnough(2, 0); }
    } else if size == 1 {
      SmearZero();
      assert NextSizeOver(1) == 2 by { DoubleUntilIsEnough(2, 1); }
    } else {
      NextSizeAboveOne(size);
    }
  }

  lemma NextSizeAboveOne(size: nat)
    requires 2 <= size < TWO_64
    ensures size <= 0x8000_0000_0000_0000 ==> NextSizeOver64(size) == NextSizeOver(size)
    ensures size > 0x8000_0000_0000_0000 ==> NextSizeOver64(size) == 2 < NextSizeOver(size)
  {
    hide Smear, DoubleUntil, Pow2, NextSizeOver;
    Pow2At63And64();
    var k := Log2(size - 1);
    Log2Bounds(size - 1);
    BelowTwo64(size - 1);
    SmearFills(size - 1, k);
    LeastPower(size, k + 1);
    Pow2Monotone(k + 1, 63);
    Pow2Monotone(1, k + 1);
    assert Pow2(1) == 2 by { PowOne(); }
  }

  lemma PowOne()
    ensures Pow2(1) == 2
  {}

  lemma DoubleUntilIsEnough(p: nat, n: nat)
    requires p > 0 && p >= n
    ensures DoubleUntil(p, n) == p
  {}

  /** The power of two just below n pins the least one at or above it. */
  lemma LeastPower(n: nat, k: nat)
    requires 1 <= k && Pow2(k - 1) < n <= Pow2(k)
    ensures NextSizeOver(n) == Pow2(k)
  {
    NextSizeOverIsLeast(n);
    var r := NextSizeOver(n);
    Pow2Monotone(Log2(r), k - 1);
    Pow2Monotone(k, Log2(r));
    Pow2Monotone(Log2(r), k);
  }

  // ---------------------------------------------------------------- logarithm by table

  /** The 64 entries of the table, in rows of eight. */
  function Log2Table(i: nat): nat
  {
    if i < 8 then
      if i == 0 then 63 else if i == 1 then 0 else if i == 2 then 58 else if i == 3 then 1 else
      if i == 4 then 59 else if i == 5 then 47 else if i == 6 then 53 else 2
    else if i < 16 then
      if i == 8 then 60 else if i == 9 then 39 else if i == 10 then 48 else if i == 11 then 27 else
      if i == 12 then 54 else if i == 13 then 33 else if i == 14 then 42 else 3
    else if i < 24 then
      if i == 16 then 61 else if i == 17 then 51 else if i == 18 then 37 else if i == 19 then 40 else
      if i == 20 then 49 else if i == 21 then 18 else if i == 22 then 28 else 20
    else if i < 32 then
      if i == 24 then 55 else if i == 25 then 30 else if i == 26 then 34 else if i == 27 then 11 else
      if i == 28 then 43 else if i == 29 then 14 else if i == 30 then 22 else 4
    else if i < 40 then
      if i == 32 then 62 else if i == 33 then 57 else if i == 34 then 46 else if i == 35 then 52 else
      if i == 36 then 38 else if i == 37 then 26 else if i == 38 then 32 else 41
    else if i < 48 then
      if i == 40 then 50 else if i == 41 then 36 else if i == 42 then 17 else if i == 43 then 19 else
      if i == 44 then 29 else if i == 45 then 10 else if i == 46 then 13 else 21
    else if i < 56 then
      if i == 48 then 56 else if i == 49 then 45 else if i == 50 then 25 else if i == 51 then 31 else
      if i == 52 then 35 else if i == 53 then 16 else if i == 54 then 9 else 12
    else
      if i == 56 then 44 else if i == 57 then 24 else if i == 58 then 15 else if i == 59 then 8 else
      if i == 60 then 23 else if i == 61 then 7 else if i == 62 then 6 else 5
  }

  const LOG2_FACTOR: nat := 0x07EDD5E59A4E28C2

  /** The table slot of a power of two. */
  function TableIndex(power: nat): (i: nat)
    ensures i < 64
  {
    power * LOG2_FACTOR % TWO_64 / 0x400_0000_0000_0000
  }

  function Log2ByTable(value: nat): nat
    requires value < TWO_64
  {
    var v := Smear(value);
    Log2Table(TableIndex((v + TWO_64 - v / 2) % TWO_64))
  }

  /** The slot of 2^k holds k. */
  ghost predicate Right(k: nat) { Log2Table(TableIndex(Pow2(k))) == k }

  /** The product that picks the slot of 2^k. */
  function Product(k: nat): nat { Pow2(k) * LOG2_FACTOR % TWO_64 }

  lemma ProductNext(k: nat)
    ensures Product(k + 1) == 2 * Product(k) % TWO_64
  {
    CutDouble(Pow2(k) * LOG2_FACTOR);
  }

  lemma CutDouble(n: nat)
    ensures 2 * n % TWO_64 == 2 * (n % TWO_64) % TWO_64
  {
    AddCut64(n, n);
  }

  /** Four exponents at a time: x and y are the products for k and for k + 4. */
  lemma FourSlots(k: nat, x: nat, y: nat)
    requires x == Product(k) && y == 16 * x % TWO_64
    requires var c := 0x400_0000_0000_0000;
      && Log2Table(x / c) == k && Log2Table(2 * x % TWO_64 / c) == k + 1
      && Log2Table(4 * x % TWO_64 / c) == k + 2 && Log2Table(8 * x % TWO_64 / c) == k + 3
    ensures y == Product(k + 4) && Right(k) && Right(k + 1) && Right(k + 2) && Right(k + 3)
  {
    hide Log2Table, Pow2, Product;
    CutDouble(2 * x);
    CutDouble(4 * x);
    CutDouble(8 * x);
    ProductNext(k);
    ProductNext(k + 1);
    ProductNext(k + 2);
    ProductNext(k + 3);
    SlotOfProduct(k);
    SlotOfProduct(k + 1);
    SlotOfProduct(k + 2);
    SlotOfProduct(k + 3);
  }

  lemma SlotOfProduct(k: nat)
    ensures TableIndex(Pow2(k)) == Product(k) / 0x400_0000_0000_0000
  {}

  lemma Slots0To7()
    ensures forall k | 0 <= k < 8 :: Right(k)
    ensures Product(8) == 0xEDD5E59A4E28C200
  {
    hide Right, Product;
    FirstProduct();
    FourSlots(0, 0x7EDD5E59A4E28C2, 0x7EDD5E59A4E28C20);
    FourSlots(4, 0x7EDD5E59A4E28C20, 0xEDD5E59A4E28C200);
  }

  lemma Slots8To15()
    ensures forall k | 8 <= k < 16 :: Right(k)
    ensures Product(16) == 0xD5E59A4E28C20000
  {
    hide Right, Product;
    Slots0To7();
    FourSlots(8, 0xEDD5E59A4E28C200, 0xDD5E59A4E28C2000);
    FourSlots(12, 0xDD5E59A4E28C2000, 0xD5E59A4E28C20000);
  }

  lemma Slots16To23()
    ensures forall k | 16 <= k < 24 :: Right(k)
    ensures Product(24) == 0xE59A4E28C2000000
  {
    hide Right, Product;
    Slots8To15();
    FourSlots(16, 0xD5E59A4E28C20000, 0x5E59A4E28C200000);
    FourSlots(20, 0x5E59A4E28C200000, 0xE59A4E28C2000000);
  }

  lemma Slots24To31()
    ensures forall k | 24 <= k < 32 :: Right(k)
    ensures Product(32) == 0x9A4E28C200000000
  {
    hide Right, Product;
    Slots16To23();
    FourSlots(24, 0xE59A4E28C2000000, 0x59A4E28C20000000);
    FourSlots(28, 0x59A4E28C20000000, 0x9A4E28C200000000);
  }

  lemma Slots32To39()
    ensures forall k | 32 <= k < 40 :: Right(k)
    ensures Product(40) == 0x4E28C20000000000
  {
    hide Right, Product;
    Slots24To31();
    FourSlots(32, 0x9A4E28C200000000, 0xA4E28C2000000000);
    FourSlots(36, 0xA4E28C2000000000, 0x4E28C20000000000);
  }

  lemma Slots40To47()
    ensures forall k | 40 <= k < 48 :: Right(k)
    ensures Product(48) == 0x28C2000000000000
  {
    hide Right, Product;
    Slots32To39();
    FourSlots(40, 0x4E28C20000000000, 0xE28C200000000000);
    FourSlots(44, 0xE28C200000000000, 0x28C2000000000000);
  }

  lemma Slots48To55()
    ensures forall k | 48 <= k < 56 :: Right(k)
    ensures Product(56) == 0xC200000000000000
  {
    hide Right, Product;
    Slots40To47();
    FourSlots(48, 0x28C2000000000000, 0x8C20000000000000);
    FourSlots(52, 0x8C20000000000000, 0xC200000000000000);
  }

  lemma Slots56To63()
    ensures forall k | 56 <= k < 64 :: Right(k)
    ensures Product(64) == 0x0
  {
    hide Right, Product;
    Slots48To55();
    FourSlots(56, 0xC200000000000000, 0x2000000000000000);
    FourSlots(60, 0x2000000000000000, 0x0);
  }

  /** The table is right for every power of two a 64-bit word can hold. */
  lemma TableIsRight(k: nat)
    requires k < 64
    ensures Log2Table(TableIndex(Pow2(k))) == k
  {
    Slots0To7();
    Slots8To15();
    Slots16To23();
    Slots24To31();
    Slots32To39();
    Slots40To47();
    Slots48To55();
    Slots56To63();
    assert Right(k);
  }

  /** log2 is the exact exponent of the highest bit; for 0 it answers 63. */
  lemma Log2ByTableIsLog2(value: nat)
    requires value < TWO_64
    ensures Log2ByTable(value) == if value == 0 then 63 else Log2(value)
  {
    hide Smear, Log2Table;
    if value == 0 {
      SmearZero();
      FirstSlot();
    } else {
      var k := Log2(value);
      Log2Bounds(value);
      BelowTwo64(value);
      SmearFills(value, k);
      TableIsRight(k);
      HighBit(k);
    }
  }

  lemma FirstProduct()
    ensures Product(0) == LOG2_FACTOR
  {}

  lemma FirstSlot()
    ensures Log2Table(0) == 63
  {}

  lemma HighBit(k: nat)
    requires Pow2(k + 1) <= TWO_64
    ensures var v: nat := Pow2(k + 1) - 1; (v + TWO_64 - v / 2) % TWO_64 == Pow2(k)
  {
    assert Pow2(k + 1) == 2 * Pow2(k);
  }

  // ---------------------------------------------------------------- indexes

  /** fibonacci_hash_policy::index_for_hash */
  function IndexForHash(hash: nat, shift: nat): nat
  {
    Shift(11400714819323198485 * hash % TWO_64, shift)
  }

  /** fibonacci_hash_policy::next_size_over, the shift it returns for the new size. */
  function ShiftFor(size: nat): int
    requires size < TWO_64
  {
    64 - Log2ByTable(size)
  }

  lemma ShiftDivides(n: nat, k: nat)
    ensures Pow2(k) > 0 && Shift(n, k) == n / Pow2(k)
  {
    ShiftAtMost(n, k);
    PositivePower(k);
    DivisionIs(n, Shift(n, k), Pow2(k));
  }

  lemma {:induction false} PositivePower(k: nat)
    ensures Pow2(k) > 0
  {
    if k > 0 { PositivePower(k - 1); }
  }

  lemma DivisionIs(n: nat, q: nat, p: nat)
    requires p > 0 && q * p <= n < q * p + p
    ensures n / p == q
  {
    var r := n / p;
    assert n == r * p + n % p;
    if r > q { Scaled(q + 1, r, p); }
    if r < q { Scaled(r + 1, q, p); }
  }

  /** The index is what the shift leaves of the product with the golden ratio's 64 bits. */
  lemma IndexIsTopOfProduct(hash: nat, shift: nat)
    ensures Pow2(shift) > 0
    ensures IndexForHash(hash, shift) ==
      11400714819323198485 * hash % 0x1_0000_0000_0000_0000 / Pow2(shift)
  {
    ShiftDivides(11400714819323198485 * hash % TWO_64, shift);
  }

  /** With the shift that belongs to a number of buckets, every index is below it. */
  lemma IndexFits(hash: nat, size: nat)
    requires 2 <= size < TWO_64
    ensures 0 <= ShiftFor(size) < 64 && IndexForHash(hash, ShiftFor(size)) < size
  {
    hide Shift, Log2ByTable, NextPowerOfTwo, Log2, Pow2;
    Log2ByTableIsLog2(size);
    ShiftedBelow(11400714819323198485 * hash % TWO_64, size);
  }

  lemma ShiftedBelow(v: nat, size: nat)
    requires v < TWO_64 && 2 <= size < TWO_64
    ensures 0 < Log2(size) <= 64 && Shift(v, 64 - Log2(size)) < size
  {
    hide Shift, Log2, Pow2;
    AtLeastOne(size);
    BelowTwo64(size);
    Log2Bounds(size);
    Pow2At63And64();
    var shift: nat := 64 - Log2(size);
    ShiftAtMost(v, shift);
    Pow2Add(Log2(size), shift);
    Scaled(Pow2(Log2(size)), size, Pow2(shift));
    Below(Shift(v, shift), size, Pow2(shift));
  }

  lemma AtLeastOne(size: nat)
    requires size >= 2
    ensures Log2(size) >= 1
  {}

  /** Whatever the hash and the request, the index falls among the buckets of the size that was chosen. */
  lemma IndexIsInRange(hash: nat, request: nat)
    requires hash < TWO_64 && request <= 0x8000_0000_0000_0000
    ensures NextSizeOver64(request) < TWO_64
    ensures 0 <= ShiftFor(NextSizeOver64(request)) < 64
    ensures IndexForHash(hash, ShiftFor(NextSizeOver64(request))) < NextSizeOver64(request)
  {
    hide Shift, NextPowerOfTwo, DoubleUntil, Log2ByTable, IndexForHash, ShiftFor;
    NextSizeIsLeastIff(request);
    NextSizeOverIsLeast(request);
    IndexFits(hash, NextSizeOver64(request));
  }

  lemma Below(q: nat, size: nat, p: nat)
    requires q * p < size * p
    ensures q < size
  {
    if q >= size { Scaled(size, q, p); }
  }

  lemma Scaled(a: nat, b: nat, p: nat)
    requires a <= b
    ensures a * p <= b * p
  {}
}
