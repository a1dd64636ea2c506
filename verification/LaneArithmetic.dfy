/** XXH3's arithmetic: the portable 128-bit product, and the vector steps against the scalar loops. */
module LaneArithmetic {
  import opened Words
  import opened PowersOfTwo
  import opened BitTricks

  // ---------------------------------------------------------------- 64 x 64 -> 128 bits

  datatype Hash128 = Hash128(low64: nat, high64: nat)

  function Mult32To64(x: nat, y: nat): nat { x % TWO_32 * (y % TWO_32) }

  /** XXH_mult64to128, the portable way: every addition is on 64 bits. */
  function Mult64To128(lhs: nat, rhs: nat): Hash128
    requires lhs < TWO_64 && rhs < TWO_64
  {
    var loLo := Mult32To64(lhs % TWO_32, rhs % TWO_32);
    var hiLo := Mult32To64(lhs / TWO_32, rhs % TWO_32);
    var loHi := Mult32To64(lhs % TWO_32, rhs / TWO_32);
    var hiHi := Mult32To64(lhs / TWO_32, rhs / TWO_32);
    var cross := Add(Add(loLo / TWO_32, hiLo % TWO_32, TWO_64), loHi, TWO_64);
    var upper := Add(Add(hiLo / TWO_32, cross / TWO_32, TWO_64), hiHi, TWO_64);
    var lower := Or(cross * TWO_32 % TWO_64, loLo % TWO_32);
    Hash128(lower, upper)
  }

  lemma HalfProductBound(a: nat, b: nat)
    requires a < TWO_32 && b < TWO_32
    ensures a * b <= (TWO_32 - 1) * (TWO_32 - 1)
  {
    Scaled(a, TWO_32 - 1, b);
    Scaled(b, TWO_32 - 1, TWO_32 - 1);
  }

  /** A sum of two 32-bit numbers and a product of two more fits in 64 bits. */
  lemma NoOverflow(a: nat, b: nat, product: nat)
    requires a < TWO_32 && b < TWO_32 && product <= (TWO_32 - 1) * (TWO_32 - 1)
    ensures Add(Add(a, b, TWO_64), product, TWO_64) == a + b + product < TWO_64
  {}

  lemma FourProducts(a: nat, b: nat, c: nat, d: nat)
    ensures (a * TWO_32 + b) * (c * TWO_32 + d) == a * c * TWO_64 + (a * d + b * c) * TWO_32 + b * d
  {
    assert (a * TWO_32 + b) * (c * TWO_32 + d) == a * TWO_32 * (c * TWO_32 + d) + b * (c * TWO_32 + d);
    assert a * TWO_32 * (c * TWO_32 + d) == a * TWO_32 * (c * TWO_32) + a * TWO_32 * d;
    assert a * TWO_32 * (c * TWO_32) == a * c * TWO_64;
    assert a * TWO_32 * d == a * d * TWO_32;
    assert b * (c * TWO_32 + d) == b * c * TWO_32 + b * d;
  }

  /** Low bits below, high bits above: or-ing is adding. */
  lemma {:induction false} OrIsSum(high: nat, low: nat, k: nat)
    requires low < Pow2(k)
    ensures Or(high * Pow2(k), low) == high * Pow2(k) + low
    decreases k
  {
    if k == 0 {
      OrZero(high);
    } else {
      var p := Pow2(k - 1);
      Doubled(high, p);
      assert high * Pow2(k) == 2 * (high * p);
      OrIsSum(high, low / 2, k - 1);
      OrEven(high * p, low);
    }
  }

  lemma OrEven(a: nat, b: nat)
    ensures Or(2 * a, b) == b % 2 + 2 * Or(a, b / 2)
  {
    if a == 0 && b == 0 { OrZero(0); }
  }

  lemma SmallFactors(x: nat, y: nat)
    requires x < TWO_32 && y < TWO_32
    ensures Mult32To64(x, y) == x * y <= (TWO_32 - 1) * (TWO_32 - 1)
  {
    HalfProductBound(x, y);
  }

  /** The two inner products and the carry of the lowest, summed without cutting. */
  function Cross(loLo: nat, hiLo: nat, loHi: nat): nat { loLo / TWO_32 + hiLo % TWO_32 + loHi }

  function Upper(hiLo: nat, cross: nat, hiHi: nat): nat { hiLo / TWO_32 + cross / TWO_32 + hiHi }

  /** What the portable product computes when no addition overflows, and none does. */
  lemma Mult64To128Sums(lhs: nat, rhs: nat, a: nat, b: nat, c: nat, d: nat)
    requires lhs < TWO_64 && rhs < TWO_64
    requires a == lhs / TWO_32 && b == lhs % TWO_32 && c == rhs / TWO_32 && d == rhs % TWO_32
    ensures var cross := Cross(b * d, a * d, b * c);
      && cross < TWO_64 && Upper(a * d, cross, a * c) < TWO_64
      && Mult64To128(lhs, rhs) == Hash128(Or(cross * TWO_32 % TWO_64, b * d % TWO_32), Upper(a * d, cross, a * c))
  {
    hide Mult32To64, Add, Or;
    SmallFactors(b, d);
    SmallFactors(a, d);
    SmallFactors(b, c);
    SmallFactors(a, c);
    NoOverflow(b * d / TWO_32, a * d % TWO_32, b * c);
    NoOverflow(a * d / TWO_32, Cross(b * d, a * d, b * c) / TWO_32, a * c);
  }

  /** The two halves are the exact product, and no addition on the way overflows. */
  lemma Mult64To128IsExact(lhs: nat, rhs: nat)
    requires lhs < TWO_64 && rhs < TWO_64
    ensures var r := Mult64To128(lhs, rhs);
      r.high64 < TWO_64 && r.low64 < TWO_64 && r.high64 * TWO_64 + r.low64 == lhs * rhs
  {
    hide Mult64To128, Or, Cross, Upper;
    var a, b, c, d := lhs / TWO_32, lhs % TWO_32, rhs / TWO_32, rhs % TWO_32;
    Mult64To128Sums(lhs, rhs, a, b, c, d);
    LowerHalf(Cross(b * d, a * d, b * c), b * d % TWO_32);
    FourProducts(a, b, c, d);
    Gathered(b * d, a * d, b * c, a * c);
  }

  lemma TwoTo32()
    ensures Pow2(32) == TWO_32
  {
    assert Pow2(4) == 0x10;
    Pow2Add(4, 4);
    Pow2Add(8, 8);
    Pow2Add(16, 16);
  }

  lemma LowerHalf(cross: nat, low: nat)
    requires cross < TWO_64 && low < TWO_32
    ensures Or(cross * TWO_32 % TWO_64, low) == cross % TWO_32 * TWO_32 + low < TWO_64
  {
    TwoTo32();
    OrIsSum(cross % TWO_32, low, 32);
    assert cross * TWO_32 % TWO_64 == cross % TWO_32 * TWO_32;
  }

  lemma Gathered(loLo: nat, hiLo: nat, loHi: nat, hiHi: nat)
    ensures var cross := Cross(loLo, hiLo, loHi);
      Upper(hiLo, cross, hiHi) * TWO_64 + (cross % TWO_32 * TWO_32 + loLo % TWO_32)
      == hiHi * TWO_64 + (hiLo + loHi) * TWO_32 + loLo
  {}

  // ---------------------------------------------------------------- lanes

  const LANES: nat := 8
  const PRIME32_1: nat := 0x9E3779B1

  predicate Words64(s: seq<nat>) { |s| == LANES && forall i | 0 <= i < LANES :: s[i] < TWO_64 }

  /** i ^ 1 */
  function Neighbour(i: nat): nat { if i % 2 == 0 then i + 1 else i - 1 }

  function KeyProduct(data: nat, key: nat): nat
  {
    var dataKey := Xor(data, key);
    Mult32To64(dataKey % TWO_32, dataKey / TWO_32)
  }

  /** One stripe accumulated: each lane takes its neighbour's data and its own keyed product. */
  function Accumulated(acc: seq<nat>, data: seq<nat>, key: seq<nat>): (r: seq<nat>)
    requires Words64(acc) && Words64(data) && Words64(key)
    ensures Words64(r)
  {
    seq(LANES, i requires 0 <= i < LANES => (acc[i] + data[Neighbour(i)] + KeyProduct(data[i], key[i])) % TWO_64)
  }

  function ScrambledLane(acc: nat, key: nat): nat
  {
    Xor(Xor(acc, Shift(acc, 47)), key) * PRIME32_1 % TWO_64
  }

  function Scrambled(acc: seq<nat>, key: seq<nat>): (r: seq<nat>)
    requires Words64(acc) && Words64(key)
    ensures Words64(r)
  {
    seq(LANES, i requires 0 <= i < LANES => ScrambledLane(acc[i], key[i]))
  }

  /** A lane takes its neighbour's data, and the two halves of its own keyed data multiplied. */
  lemma LaneAccumulates(acc: seq<nat>, data: seq<nat>, key: seq<nat>, i: nat)
    requires Words64(acc) && Words64(data) && Words64(key) && i < 8
    ensures var keyed := Xor(data[i], key[i]);
      Accumulated(acc, data, key)[i] ==
        (acc[i] + data[if i % 2 == 0 then i + 1 else i - 1] + keyed % 0x1_0000_0000 * (keyed / 0x1_0000_0000))
        % 0x1_0000_0000_0000_0000
  {
    hide Xor;
    XorBelow(data[i], key[i]);
    Halves(Xor(data[i], key[i]));
  }

  lemma Halves(x: nat)
    requires x < TWO_64
    ensures Mult32To64(x % TWO_32, x / TWO_32) == x % TWO_32 * (x / TWO_32)
  {}

  /** A lane is combined with its own high bits and with the key, and multiplied. */
  lemma LaneScrambles(acc: seq<nat>, key: seq<nat>, i: nat)
    requires Words64(acc) && Words64(key) && i < 8
    ensures Scrambled(acc, key)[i] ==
      Xor(Xor(acc[i], acc[i] / 0x8000_0000_0000), key[i]) * 0x9E37_79B1 % 0x1_0000_0000_0000_0000
  {
    hide Xor, Shift;
    ShiftDivides(acc[i], 47);
    TwoTo47();
  }

  lemma TwoTo47()
    ensures Pow2(47) == 0x8000_0000_0000
  {
    assert Pow2(15) == 0x8000;
    TwoTo32();
    Pow2Add(32, 15);
  }

  /** A lane after the scalar loop's first n rounds: the data of round i goes to lane i ^ 1. */
  function PartSum(acc: nat, data: nat, product: nat, dataIn: bool, productIn: bool): nat
  {
    (acc + (if dataIn then data else 0) + (if productIn then product else 0)) % TWO_64
  }

  /** The lanes after n rounds of the scalar loop. */
  ghost function AfterRounds(acc: seq<nat>, data: seq<nat>, key: seq<nat>, n: nat): (r: seq<nat>)
    requires Words64(acc) && Words64(data) && Words64(key)
    ensures |r| == LANES
  {
    seq(LANES, j requires 0 <= j < LANES =>
      PartSum(acc[j], data[Neighbour(j)], KeyProduct(data[j], key[j]), Neighbour(j) < n, j < n))
  }

  lemma NextRound(acc: seq<nat>, data: seq<nat>, key: seq<nat>, i: nat)
    requires Words64(acc) && Words64(data) && Words64(key) && i < LANES
    ensures var was := AfterRounds(acc, data, key, i);
      var j := Neighbour(i);
      var given := was[j := Add(was[j], data[i], TWO_64)];
      AfterRounds(acc, data, key, i + 1) == given[i := Add(given[i], KeyProduct(data[i], key[i]), TWO_64)]
  {
    hide KeyProduct, PartSum, Add;
    var j := Neighbour(i);
    DataIn(acc[j], data[i], KeyProduct(data[j], key[j]), j < i);
    ProductIn(acc[i], data[j], KeyProduct(data[i], key[i]), j < i);
  }

  lemma AllRounds(acc: seq<nat>, data: seq<nat>, key: seq<nat>)
    requires Words64(acc) && Words64(data) && Words64(key)
    ensures AfterRounds(acc, data, key, 0) == acc
    ensures AfterRounds(acc, data, key, LANES) == Accumulated(acc, data, key)
  {
    hide KeyProduct, PartSum;
    forall j | 0 <= j < LANES
      ensures AfterRounds(acc, data, key, 0)[j] == acc[j]
      ensures AfterRounds(acc, data, key, LANES)[j] == Accumulated(acc, data, key)[j]
    {
      NothingIn(acc[j], data[Neighbour(j)], KeyProduct(data[j], key[j]));
      AllIn(acc[j], data[Neighbour(j)], KeyProduct(data[j], key[j]));
    }
  }

  /** XXH3_accumulate_512_scalar */
  method AccumulateScalar(acc: array<nat>, data: seq<nat>, key: seq<nat>)
    requires acc.Length == LANES && Words64(acc[..]) && Words64(data) && Words64(key)
    modifies acc
    ensures acc[..] == Accumulated(old(acc[..]), data, key)
  {
    hide KeyProduct, AfterRounds, Add, Accumulated;
    ghost var was := acc[..];
    AllRounds(was, data, key);
    var i := 0;
    while i < LANES
      invariant 0 <= i <= LANES && acc[..] == AfterRounds(was, data, key, i)
    {
      NextRound(was, data, key, i);
      var j := Neighbour(i);
      acc[j] := Add(acc[j], data[i], TWO_64);
      acc[i] := Add(acc[i], KeyProduct(data[i], key[i]), TWO_64);
      i := i + 1;
    }
  }

  lemma NothingIn(acc: nat, data: nat, product: nat)
    ensures acc < TWO_64 ==> PartSum(acc, data, product, false, false) == acc
  {}

  lemma DataIn(acc: nat, data: nat, product: nat, productIn: bool)
    ensures Add(PartSum(acc, data, product, false, productIn), data, TWO_64) ==
      PartSum(acc, data, product, true, productIn)
      < TWO_64
  {}

  lemma ProductIn(acc: nat, data: nat, product: nat, dataIn: bool)
    ensures Add(PartSum(acc, data, product, dataIn, false), product, TWO_64) ==
      PartSum(acc, data, product, dataIn, true)
      < TWO_64
  {}

  lemma AllIn(acc: nat, data: nat, product: nat)
    ensures PartSum(acc, data, product, true, true) == (acc + data + product) % TWO_64
  {}

  // ---------------------------------------------------------------- 128-bit registers

  /** Two 64-bit lanes of a vector register. */
  datatype Vec = Vec(lane0: nat, lane1: nat)

  /** 32-bit word number i of a register, the lowest first. */
  function WordOf(v: Vec, i: nat): nat
    requires i < 4
  {
    if i == 0 then v.lane0 % TWO_32 else if i == 1 then v.lane0 / TWO_32
    else if i == 2 then v.lane1 % TWO_32 else v.lane1 / TWO_32
  }

  /** _mm_shuffle_epi32: the four words picked, the lowest destination last, as in _MM_SHUFFLE. */
  function Shuffle32(v: Vec, i3: nat, i2: nat, i1: nat, i0: nat): Vec
    requires i0 < 4 && i1 < 4 && i2 < 4 && i3 < 4
  {
    Vec(WordOf(v, i0) + WordOf(v, i1) * TWO_32, WordOf(v, i2) + WordOf(v, i3) * TWO_32)
  }

  function VecXor(a: Vec, b: Vec): Vec { Vec(Xor(a.lane0, b.lane0), Xor(a.lane1, b.lane1)) }

  function VecAdd64(a: Vec, b: Vec): Vec { Vec(Add(a.lane0, b.lane0, TWO_64), Add(a.lane1, b.lane1, TWO_64)) }

  /** _mm_mul_epu32: the low word of each lane, multiplied in full. */
  function VecMul32(a: Vec, b: Vec): Vec { Vec(Mult32To64(a.lane0, b.lane0), Mult32To64(a.lane1, b.lane1)) }

  function VecShiftRight(v: Vec, k: nat): Vec { Vec(Shift(v.lane0, k), Shift(v.lane1, k)) }

  function VecShiftLeft32(v: Vec): Vec { Vec(v.lane0 * TWO_32 % TWO_64, v.lane1 * TWO_32 % TWO_64) }

  function AccumulateVec(acc: Vec, data: Vec, key: Vec): Vec
  {
    var dataKey := VecXor(data, key);
    var dataKeyLo := Shuffle32(dataKey, 0, 3, 0, 1);
    var product := VecMul32(dataKey, dataKeyLo);
    var dataSwap := Shuffle32(data, 1, 0, 3, 2);
    VecAdd64(product, VecAdd64(acc, dataSwap))
  }

  function ScrambleVec(acc: Vec, key: Vec): Vec
  {
    var dataKey := VecXor(VecXor(acc, VecShiftRight(acc, 47)), key);
    var dataKeyHi := Shuffle32(dataKey, 0, 3, 0, 1);
    var prime := Vec(PRIME32_1 + PRIME32_1 * TWO_32, PRIME32_1 + PRIME32_1 * TWO_32);
    var prodLo := VecMul32(dataKey, prime);
    var prodHi := VecMul32(dataKeyHi, prime);
    VecAdd64(prodLo, VecShiftLeft32(prodHi))
  }

  lemma {:induction false} XorBound(a: nat, b: nat, k: nat)
    requires a < Pow2(k) && b < Pow2(k)
    ensures Xor(a, b) < Pow2(k)
    decreases k
  {
    if k > 0 { XorBound(a / 2, b / 2, k - 1); }
  }

  lemma XorBelow(a: nat, b: nat)
    requires a < TWO_64 && b < TWO_64
    ensures Xor(a, b) < TWO_64
  {
    Pow2At63And64();
    XorBound(a, b, 64);
  }

  /** Swapping the words of a lane puts its high half where the multiplication looks. */
  lemma CrossProduct(x: nat, other: nat)
    requires x < TWO_64
    ensures Mult32To64(x, x / TWO_32 + other * TWO_32) == Mult32To64(x % TWO_32, x / TWO_32)
  {
    LowWord(x / TWO_32, other);
  }

  lemma LowWord(low: nat, high: nat)
    requires low < TWO_32
    ensures (low + high * TWO_32) % TWO_32 == low
  {}

  lemma Rejoined(x: nat)
    ensures x % TWO_32 + x / TWO_32 * TWO_32 == x
  {}

  lemma SumOfThree(a: nat, b: nat, c: nat)
    ensures Add(c, Add(a, b, TWO_64), TWO_64) == (a + b + c) % TWO_64
  {}

  /** The register step on two neighbouring lanes is the scalar step on both. */
  lemma AccumulateVecIsScalar(acc: Vec, data: Vec, key: Vec)
    requires data.lane0 < TWO_64 && data.lane1 < TWO_64 && key.lane0 < TWO_64 && key.lane1 < TWO_64
    ensures AccumulateVec(acc, data, key)
      == Vec((acc.lane0 + data.lane1 + KeyProduct(data.lane0, key.lane0)) % TWO_64,
             (acc.lane1 + data.lane0 + KeyProduct(data.lane1, key.lane1)) % TWO_64)
  {
    hide Xor, Mult32To64, Add;
    XorBelow(data.lane0, key.lane0);
    XorBelow(data.lane1, key.lane1);
    var x0, x1 := Xor(data.lane0, key.lane0), Xor(data.lane1, key.lane1);
    CrossProduct(x0, x0 % TWO_32);
    CrossProduct(x1, x0 % TWO_32);
    Rejoined(data.lane0);
    Rejoined(data.lane1);
    SumOfThree(acc.lane0, data.lane1, KeyProduct(data.lane0, key.lane0));
    SumOfThree(acc.lane1, data.lane0, KeyProduct(data.lane1, key.lane1));
  }

  /** The low-half product plus the shifted high-half product is the scalar product modulo 2^64. */
  lemma HalvesOfProduct(x: nat, other: nat)
    requires x < TWO_64
    ensures Add(Mult32To64(x, PRIME32_1), Mult32To64(x / TWO_32 + other * TWO_32, PRIME32_1) * TWO_32 % TWO_64, TWO_64)
      == x * PRIME32_1 % TWO_64
  {
    var high, low := x / TWO_32, x % TWO_32;
    assert (high + other * TWO_32) % TWO_32 == high;
    assert x * PRIME32_1 == low * PRIME32_1 + high * PRIME32_1 * TWO_32;
    CutLater(low * PRIME32_1, high * PRIME32_1 * TWO_32);
  }

  lemma CutLater(a: nat, b: nat)
    ensures (a + b % TWO_64) % TWO_64 == (a + b) % TWO_64
  {}

  /** Only the low word of the prime's lane takes part. */
  lemma PrimeLane(x: nat)
    ensures Mult32To64(x, PRIME32_1 + PRIME32_1 * TWO_32) == Mult32To64(x, PRIME32_1)
  {
    LowWord(PRIME32_1, PRIME32_1);
  }

  lemma ScrambleVecIsScalar(acc: Vec, key: Vec)
    requires acc.lane0 < TWO_64 && acc.lane1 < TWO_64 && key.lane0 < TWO_64 && key.lane1 < TWO_64
    ensures ScrambleVec(acc, key) == Vec(ScrambledLane(acc.lane0, key.lane0), ScrambledLane(acc.lane1, key.lane1))
  {
    hide Xor, Mult32To64, Add, Shift;
    var x0, x1 := DataKey(acc.lane0, key.lane0), DataKey(acc.lane1, key.lane1);
    HalvesOfProduct(x0, x0 % TWO_32);
    HalvesOfProduct(x1, x0 % TWO_32);
    PrimeLane(x0);
    PrimeLane(x1);
    PrimeLane(x0 / TWO_32 + x0 % TWO_32 * TWO_32);
    PrimeLane(x1 / TWO_32 + x0 % TWO_32 * TWO_32);
  }

  function DataKey(acc: nat, key: nat): (x: nat)
    requires acc < TWO_64 && key < TWO_64
    ensures x < TWO_64
  {
    ShiftAtMost(acc, 47);
    ShiftedBelow(Shift(acc, 47), Pow2(47), acc);
    XorBelow(acc, Shift(acc, 47));
    XorBelow(Xor(acc, Shift(acc, 47)), key);
    Xor(Xor(acc, Shift(acc, 47)), key)
  }

  lemma ShiftedBelow(q: nat, p: nat, n: nat)
    requires p >= 1 && q * p <= n
    ensures q <= n
  {
    Scaled(1, p, q);
  }

  /** XXH3_accumulate_512_sse2: the same result, two lanes at a time. */
  method AccumulateVector(acc: array<nat>, data: seq<nat>, key: seq<nat>)
    requires acc.Length == LANES && Words64(acc[..]) && Words64(data) && Words64(key)
    modifies acc
    ensures acc[..] == Accumulated(old(acc[..]), data, key)
  {
    hide KeyProduct, AccumulateVec;
    var i := 0;
    while i < LANES / 2
      invariant 0 <= i <= LANES / 2
      invariant forall j | 0 <= j < LANES ::
        acc[j] == if j < 2 * i then Accumulated(old(acc[..]), data, key)[j] else old(acc[j])
    {
      var d, k := Vec(data[2 * i], data[2 * i + 1]), Vec(key[2 * i], key[2 * i + 1]);
      var a := Vec(acc[2 * i], acc[2 * i + 1]);
      AccumulateVecIsScalar(a, d, k);
      var r := AccumulateVec(a, d, k);
      acc[2 * i], acc[2 * i + 1] := r.lane0, r.lane1;
      i := i + 1;
    }
  }

  /** XXH3_scrambleAcc_scalar */
  method ScrambleScalar(acc: array<nat>, key: seq<nat>)
    requires acc.Length == LANES && Words64(acc[..]) && Words64(key)
    modifies acc
    ensures acc[..] == Scrambled(old(acc[..]), key)
  {
    hide ScrambledLane;
    var i := 0;
    while i < LANES
      invariant 0 <= i <= LANES
      invariant forall j | 0 <= j < LANES :: acc[j] == if j < i then ScrambledLane(old(acc[j]), key[j]) else old(acc[j])
    {
      acc[i] := ScrambledLane(acc[i], key[i]);
      i := i + 1;
    }
  }

  /** XXH3_scrambleAcc_sse2 */
  method ScrambleVector(acc: array<nat>, key: seq<nat>)
    requires acc.Length == LANES && Words64(acc[..]) && Words64(key)
    modifies acc
    ensures acc[..] == Scrambled(old(acc[..]), key)
  {
    hide ScrambledLane, ScrambleVec;
    var i := 0;
    while i < LANES / 2
      invariant 0 <= i <= LANES / 2
      invariant forall j | 0 <= j < LANES :: acc[j] == if j < 2 * i then ScrambledLane(old(acc[j]), key[j])
        else old(acc[j])
    {
      var a, k := Vec(acc[2 * i], acc[2 * i + 1]), Vec(key[2 * i], key[2 * i + 1]);
      assert acc[2 * i] == old(acc[..])[2 * i] && acc[2 * i + 1] == old(acc[..])[2 * i + 1];
      ScrambleVecIsScalar(a, k);
      var r := ScrambleVec(a, k);
      acc[2 * i], acc[2 * i + 1] := r.lane0, r.lane1;
      i := i + 1;
    }
  }
}
