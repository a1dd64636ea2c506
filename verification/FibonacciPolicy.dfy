/** The hash table under its own policy: Fibonacci hashing with a shift that follows the number of buckets. */
module FibonacciPolicy {
  import opened Words
  import opened PowersOfTwo
  import opened BitTricks
  import opened RobinHoodSlots
  import opened RobinHoodTable

  /**
   The shift is 63 until there are buckets, and then the one next_size_over has returned
   for their number, mask + 1.  No 64-bit mask is larger than the last case allows.
   */
  function IndexAt(hash: nat, mask: nat): nat
  {
    if mask == 0 then IndexForHash(hash, 63)
    else if mask + 1 < TWO_64 then IndexForHash(hash, ShiftFor(mask + 1))
    else 0
  }

  function FibonacciIndex<T>(hash: T -> nat): (T, nat) -> nat
  {
    (key, mask) => IndexAt(hash(key), mask)
  }

  lemma IndexAtIsInRange(hash: nat, mask: nat)
    ensures IndexAt(hash, mask) <= if mask == 0 then 1 else mask
  {
    hide IndexForHash, ShiftFor;
    if mask == 0 {
      ShiftOfTwo();
      IndexFits(hash, 2);
    } else if mask + 1 < TWO_64 {
      IndexFits(hash, mask + 1);
    }
  }

  /** Until there are buckets, the product's highest bit. */
  lemma FirstIndexIsHighestBit(hash: nat)
    ensures IndexAt(hash, 0) == 11400714819323198485 * hash % 0x1_0000_0000_0000_0000 / 0x8000_0000_0000_0000
  {
    hide IndexForHash;
    IndexIsTopOfProduct(hash, 63);
    Pow2At63And64();
  }

  lemma ShiftOfTwo()
    ensures ShiftFor(2) == 63
  {
    Log2ByTableIsLog2(2);
    assert Log2(2) == 1;
  }

  /** The policy meets what the table asks of its index function, for any hash function. */
  lemma PolicyIsInRange<T(!new)>(hash: T -> nat)
    ensures InRange(FibonacciIndex(hash))
  {
    forall k, mask: nat ensures FibonacciIndex(hash)(k, mask) <= if mask == 0 then 1 else mask {
      IndexAtIsInRange(hash(k), mask);
    }
  }

  /** Any run on a new table under this policy answers exactly as a mathematical set would. */
  method RunWithPolicy<T(!new, ==)>(hash: T -> nat, ops: seq<Op<T>>) returns (answers: seq<bool>)
    ensures answers == Answers(ops, {})
  {
    hide InRange;
    PolicyIsInRange(hash);
    answers := Run(FibonacciIndex(hash), ops);
  }
}
