/** Bucket counts: powers of two, their exponents, and the next size over a request. */
module PowersOfTwo {

  function Pow2(k: nat): (p: nat)
    ensures p >= 1
  {
    if k == 0 then 1 else 2 * Pow2(k - 1)
  }

  /** floor(log2(n)), and 0 for 0. */
  function Log2(n: nat): nat
  {
    if n <= 1 then 0 else 1 + Log2(n / 2)
  }

  predicate IsPow2(n: nat) { n == Pow2(Log2(n)) }

  /** The first of p, 2p, 4p, ... that is at least n. */
  function DoubleUntil(p: nat, n: nat): (r: nat)
    requires p > 0
    ensures r >= n && r >= p
    decreases if p >= n then 0 else n - p
  {
    if p >= n then p else DoubleUntil(2 * p, n)
  }

  /** The fibonacci policy's next size: at least two buckets. */
  function NextSizeOver(n: nat): (r: nat)
    ensures r >= n && r >= 2
  {
    DoubleUntil(2, n)
  }

  lemma {:induction false} Log2OfPow2(k: nat)
    ensures Log2(Pow2(k)) == k
  {
    if k > 0 { Log2OfPow2(k - 1); }
  }

  lemma {:induction false} Pow2Monotone(a: nat, b: nat)
    ensures a <= b <==> Pow2(a) <= Pow2(b)
    decreases a + b
  {
    if a > 0 && b > 0 { Pow2Monotone(a - 1, b - 1); }
  }

  lemma {:induction false} Pow2Add(a: nat, b: nat)
    ensures Pow2(a + b) == Pow2(a) * Pow2(b)
  {
    if a > 0 {
      Pow2Add(a - 1, b);
      assert Pow2(a + b) == 2 * (Pow2(a - 1) * Pow2(b));
    }
  }

  lemma {:induction false} DoubleUntilIsLeast(k: nat, n: nat)
    ensures var r := DoubleUntil(Pow2(k), n);
      && IsPow2(r)
      && Log2(r) >= k
      && (r > Pow2(k) ==> r / 2 < n)
    decreases if Pow2(k) >= n then 0 else n - Pow2(k)
  {
    Log2OfPow2(k);
    if Pow2(k) < n {
      assert 2 * Pow2(k) == Pow2(k + 1);
      DoubleUntilIsLeast(k + 1, n);
    }
  }

  /** The next size is a power of two, and no smaller power of two from 2 up would do. */
  lemma NextSizeOverIsLeast(n: nat)
    ensures IsPow2(NextSizeOver(n))
    ensures forall k: nat | k >= 1 && Pow2(k) >= n :: NextSizeOver(n) <= Pow2(k)
  {
    DoubleUntilIsLeast(1, n);
    var r := NextSizeOver(n);
    forall k: nat | k >= 1 && Pow2(k) >= n ensures r <= Pow2(k) {
      if r > 2 {
        Pow2Monotone(Log2(r), k);
        if k < Log2(r) {
          Pow2Monotone(k, Log2(r) - 1);
        }
      } else {
        Pow2Monotone(1, k);
      }
    }
  }

  /** A doubled request lands at least one level up. */
  lemma NextSizeGrows(m: nat, n: nat)
    requires IsPow2(m) && n >= 2 * m
    ensures IsPow2(NextSizeOver(n)) && Log2(NextSizeOver(n)) > Log2(m)
  {
    NextSizeOverIsLeast(n);
    Pow2Monotone(Log2(NextSizeOver(n)), Log2(m));
  }

  /** Room for n + 1 keys at load factor one half, once the level exceeds n. */
  lemma {:induction false} Pow2Exceeds(n: nat)
    ensures Pow2(n + 1) >= 2 * (n + 1)
  {
    if n > 0 { Pow2Exceeds(n - 1); }
  }
}
