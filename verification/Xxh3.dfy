/**
 XXH3 64-bit: what a hash of one contiguous input is.

 The mixing steps on the accumulators and the short-key hashes are parameters
 (a Kernel); everything about lengths, stripes, blocks, secrets and seeds is
 spelled out.
 */
module Xxh3 {
  import opened Bytes
  import opened Words

  const STRIPE_LEN: nat := 64
  const SECRET_CONSUME_RATE: nat := 8
  const SECRET_SIZE_MIN: nat := 136
  const SECRET_DEFAULT_SIZE: nat := 192
  const SECRET_LASTACC_START: nat := 7
  const SECRET_MERGEACCS_START: nat := 11
  const MIDSIZE_MAX: nat := 240
  const PRIME64_1: nat := 0x9E3779B185EBCA87

  /** The steps this model leaves open. */
  datatype Kernel<!A> = Kernel(
    init: A,
    accumulate512: (A, seq<byte>, seq<byte>) -> A,
    scramble: (A, seq<byte>) -> A,
    mergeAccs: (A, seq<byte>, nat) -> nat,
    len0to16: (seq<byte>, seq<byte>, nat) --> nat,
    len17to128: (seq<byte>, seq<byte>, nat) --> nat,
    len129to240: (seq<byte>, seq<byte>, nat) --> nat,
    defaultSecret: seq<byte>,
    customSecret: nat -> seq<byte>)
  {
    /** Each short-key hash need only work on the lengths it asserts. */
    ghost predicate Valid()
    {
      && |defaultSecret| == SECRET_DEFAULT_SIZE
      && (forall seed :: |customSecret(seed)| == SECRET_DEFAULT_SIZE)
      && (forall b: seq<byte>, secret: seq<byte>, seed: nat | |secret| >= 136 && |b| <= 16 ::
            len0to16.requires(b, secret, seed))
      && (forall b: seq<byte>, secret: seq<byte>, seed: nat | |secret| >= 136 && 16 < |b| <= 128 ::
            len17to128.requires(b, secret, seed))
      && (forall b: seq<byte>, secret: seq<byte>, seed: nat | |secret| >= 136 && 128 < |b| <= 240 ::
            len129to240.requires(b, secret, seed))
    }
  }

  function StripesPerBlock(secret: seq<byte>): (n: nat)
    requires |secret| >= SECRET_SIZE_MIN
    ensures n >= 9 && 8 * n + 64 <= |secret| < 8 * n + 72
  {
    (|secret| - STRIPE_LEN) / SECRET_CONSUME_RATE
  }

  /** The accumulators and the number of stripes taken in the current block. */
  datatype Progress<A> = Progress(acc: A, soFar: nat)

  /** One stripe: accumulate it with the block's next secret segment; scramble when the block is full. */
  function TakeStripe<A>(k: Kernel<A>, secret: seq<byte>, p: Progress<A>, stripe: seq<byte>): (r: Progress<A>)
    requires |secret| >= SECRET_SIZE_MIN && p.soFar < StripesPerBlock(secret)
    ensures r.soFar < StripesPerBlock(secret)
  {
    var a := k.accumulate512(p.acc, stripe, secret[8 * p.soFar..8 * p.soFar + 64]);
    if p.soFar + 1 == StripesPerBlock(secret) then Progress(k.scramble(a, secret[|secret| - 64..]), 0)
    else Progress(a, p.soFar + 1)
  }

  function Absorb<A>(k: Kernel<A>, secret: seq<byte>, p: Progress<A>, data: seq<byte>): (r: Progress<A>)
    requires |secret| >= SECRET_SIZE_MIN && p.soFar < StripesPerBlock(secret)
    ensures r.soFar < StripesPerBlock(secret)
    decreases |data|
  {
    if |data| < 64 then p else Absorb(k, secret, TakeStripe(k, secret, p, data[..64]), data[64..])
  }

  lemma {:induction false} AbsorbConcat<A>(k: Kernel<A>, secret: seq<byte>, p: Progress<A>, a: seq<byte>, b: seq<byte>)
    requires |secret| >= SECRET_SIZE_MIN && p.soFar < StripesPerBlock(secret)
    requires |a| % 64 == 0
    ensures Absorb(k, secret, p, a + b) == Absorb(k, secret, Absorb(k, secret, p, a), b)
    decreases |a|
  {
    if a == [] {
      assert a + b == b;
    } else {
      assert (a + b)[..64] == a[..64] && (a + b)[64..] == a[64..] + b;
      AbsorbConcat(k, secret, TakeStripe(k, secret, p, a[..64]), a[64..], b);
    }
  }

  /** The long-input hash: every stripe but the last byte's, then the last 64 bytes once more. */
  function HashLong<A>(k: Kernel<A>, input: seq<byte>, secret: seq<byte>): nat
    requires |secret| >= SECRET_SIZE_MIN && |input| > MIDSIZE_MAX
  {
    var full := input[..(|input| - 1) / 64 * 64];
    var a := Absorb(k, secret, Progress(k.init, 0), full).acc;
    Finish(k, k.accumulate512(a, input[|input| - 64..], LastSecret(secret)), secret, |input|)
  }

  lemma HashLongIs<A>(k: Kernel<A>, input: seq<byte>, secret: seq<byte>)
    requires |secret| >= SECRET_SIZE_MIN && |input| > MIDSIZE_MAX
    ensures var a := Absorb(k, secret, Progress(k.init, 0), input[..(|input| - 1) / 64 * 64]).acc;
      HashLong(k, input, secret) ==
        Finish(k, k.accumulate512(a, input[|input| - 64..], LastSecret(secret)), secret, |input|)
  {
    hide Absorb, Finish, LastSecret, StripesPerBlock;
  }

  function LastSecret(secret: seq<byte>): seq<byte>
    requires |secret| >= SECRET_SIZE_MIN
  {
    secret[|secret| - STRIPE_LEN - SECRET_LASTACC_START..|secret| - SECRET_LASTACC_START]
  }

  function Finish<A>(k: Kernel<A>, a: A, secret: seq<byte>, len: nat): nat
    requires |secret| >= SECRET_SIZE_MIN
  {
    k.mergeAccs(a, secret[SECRET_MERGEACCS_START..SECRET_MERGEACCS_START + 64], len * PRIME64_1 % TWO_64)
  }

  function HashShort<A>(k: Kernel<A>, input: seq<byte>, seed: nat, secret: seq<byte>): nat
    requires k.Valid() && |secret| >= SECRET_SIZE_MIN && |input| <= MIDSIZE_MAX
  {
    if |input| <= 16 then k.len0to16(input, secret, seed)
    else if |input| <= 128 then k.len17to128(input, secret, seed)
    else k.len129to240(input, secret, seed)
  }

  // ---------------------------------------------------------------- the one-shot entry points

  /** How a hash is keyed. */
  datatype Mode =
    | Plain | WithSecret(secret: seq<byte>) | WithSeed(seed: nat) | WithSecretAndSeed(secret: seq<byte>, seed: nat)
  {
    predicate Valid()
    {
      (WithSecret? || WithSecretAndSeed?) ==> |secret| >= SECRET_SIZE_MIN
    }
  }

  /** XXH3_64bits, _withSecret, _withSeed and _withSecretandSeed on a whole input. */
  function OneShot<A>(k: Kernel<A>, mode: Mode, input: seq<byte>): nat
    requires k.Valid() && mode.Valid()
  {
    match mode
    case Plain =>
      if |input| <= MIDSIZE_MAX then HashShort(k, input, 0, k.defaultSecret)
      else HashLong(k, input, k.defaultSecret)
    case WithSecret(secret) =>
      if |input| <= MIDSIZE_MAX then HashShort(k, input, 0, secret)
      else HashLong(k, input, secret)
    case WithSeed(seed) =>
      if |input| <= MIDSIZE_MAX then HashShort(k, input, seed, k.defaultSecret)
      else if seed == 0 then HashLong(k, input, k.defaultSecret)
      else HashLong(k, input, k.customSecret(seed))
    case WithSecretAndSeed(secret, seed) =>
      if |input| <= MIDSIZE_MAX then HashShort(k, input, seed, k.defaultSecret)
      else HashLong(k, input, secret)
  }

  // ---------------------------------------------------------------- the hash, part by part

  /** Up to 240 bytes: which short-key hash it is, and under which secret and seed. */
  lemma ShortHashIs<A>(k: Kernel<A>, mode: Mode, input: seq<byte>)
    requires k.Valid() && mode.Valid() && |input| <= 240
    ensures var secret := if mode.WithSecret? then mode.secret else k.defaultSecret;
      var seed := if mode.WithSeed? || mode.WithSecretAndSeed? then mode.seed else 0;
      OneShot(k, mode, input) ==
        if |input| <= 16 then k.len0to16(input, secret, seed)
        else if |input| <= 128 then k.len17to128(input, secret, seed)
        else k.len129to240(input, secret, seed)
  {}

  /**
   Beyond 240 bytes: all whole stripes before the last byte, then the last 64 bytes once
   more, keyed by the 64 bytes of the secret that end 7 before its end, and the merge,
   keyed from byte 11 on, with the length times the first prime.
   */
  lemma LongHashIs<A>(k: Kernel<A>, mode: Mode, input: seq<byte>)
    requires k.Valid() && mode.Valid() && |input| > 240
    ensures var secret :=
        if mode.WithSecret? || mode.WithSecretAndSeed? then mode.secret
        else if mode.WithSeed? && mode.seed != 0 then k.customSecret(mode.seed)
        else k.defaultSecret;
      var a := Absorb(k, secret, Progress(k.init, 0), input[..(|input| - 1) / 64 * 64]).acc;
      OneShot(k, mode, input) ==
        k.mergeAccs(k.accumulate512(a, input[|input| - 64..], secret[|secret| - 71..|secret| - 7]),
          secret[11..75], |input| * 0x9E3779B185EBCA87 % 0x1_0000_0000_0000_0000)
  {
    hide Absorb;
  }

  /**
   How the stripes are taken: stripe number n of a block is keyed by the 64 bytes of the
   secret from 8 * n on; a block ends when the secret has no further 64 bytes but the last
   ones, which then key the scramble.
   */
  lemma StripeByStripe<A>(k: Kernel<A>, secret: seq<byte>, a: A, data: seq<byte>, stripe: seq<byte>)
    requires |secret| >= 136 && |data| % 64 == 0 && |stripe| == 64
    ensures Absorb(k, secret, Progress(a, 0), []) == Progress(a, 0)
    ensures var p := Absorb(k, secret, Progress(a, 0), data);
      var next := k.accumulate512(p.acc, stripe, secret[8 * p.soFar..8 * p.soFar + 64]);
      Absorb(k, secret, Progress(a, 0), data + stripe) ==
        if 8 * (p.soFar + 1) + 64 + 8 > |secret| then Progress(k.scramble(next, secret[|secret| - 64..]), 0)
        else Progress(next, p.soFar + 1)
  {
    hide Absorb, StripesPerBlock, TakeStripe;
    var p := Absorb(k, secret, Progress(a, 0), data);
    StripeTaken(k, secret, Progress(a, 0), data, stripe, p);
    OneStripe(k, secret, p, stripe);
  }

  lemma StripeTaken<A>(k: Kernel<A>, secret: seq<byte>, start: Progress<A>, data: seq<byte>, stripe: seq<byte>,
    p: Progress<A>)
    requires |secret| >= 136 && |data| % 64 == 0 && |stripe| == 64
    requires start.soFar < StripesPerBlock(secret) && p == Absorb(k, secret, start, data)
    ensures Absorb(k, secret, start, []) == start
    ensures Absorb(k, secret, start, data + stripe) == TakeStripe(k, secret, p, stripe)
  {
    hide Absorb, StripesPerBlock, TakeStripe;
    AbsorbConcat(k, secret, start, data, stripe);
    AbsorbFew(k, secret, start, stripe);
    AbsorbFew(k, secret, p, stripe);
  }

  lemma AbsorbFew<A>(k: Kernel<A>, secret: seq<byte>, p: Progress<A>, stripe: seq<byte>)
    requires |secret| >= 136 && p.soFar < StripesPerBlock(secret) && |stripe| == 64
    ensures Absorb(k, secret, p, []) == p && Absorb(k, secret, p, stripe) == TakeStripe(k, secret, p, stripe)
  {
    assert stripe[..64] == stripe && stripe[64..] == [];
  }

  lemma OneStripe<A>(k: Kernel<A>, secret: seq<byte>, p: Progress<A>, stripe: seq<byte>)
    requires |secret| >= 136 && p.soFar < StripesPerBlock(secret) && |stripe| == 64
    ensures var next := k.accumulate512(p.acc, stripe, secret[8 * p.soFar..8 * p.soFar + 64]);
      TakeStripe(k, secret, p, stripe) ==
        if 8 * (p.soFar + 1) + 64 + 8 > |secret| then Progress(k.scramble(next, secret[|secret| - 64..]), 0)
        else Progress(next, p.soFar + 1)
  {
    hide StripesPerBlock;
    BlockEnds(secret, p.soFar);
  }

  lemma BlockEnds(secret: seq<byte>, n: nat)
    requires |secret| >= 136 && n < StripesPerBlock(secret)
    ensures 8 * n + 64 <= |secret|
    ensures n + 1 == StripesPerBlock(secret) <==> 8 * (n + 1) + 64 + 8 > |secret|
  {}

  // ---------------------------------------------------------------- loops over stripes

  /** n stripes accumulated with consecutive secret segments, no scrambling. */
  function AccumulateAll<A>(k: Kernel<A>, secret: seq<byte>, a: A, j: nat, data: seq<byte>): A
    requires |data| % 64 == 0 && 8 * (j + |data| / 64) + 56 <= |secret|
    decreases |data|
  {
    if |data| < 64 then a
    else AccumulateAll(k, secret, k.accumulate512(a, data[..64], secret[8 * j..8 * j + 64]), j + 1, data[64..])
  }

  lemma {:induction false} AccumulateSnoc<A>(k: Kernel<A>, secret: seq<byte>, a: A, j: nat,
    data: seq<byte>, stripe: seq<byte>)
    requires |data| % 64 == 0 && |stripe| == 64 && 8 * (j + |data| / 64 + 1) + 56 <= |secret|
    ensures AccumulateAll(k, secret, a, j, data + stripe)
         == k.accumulate512(AccumulateAll(k, secret, a, j, data), stripe,
                            secret[8 * (j + |data| / 64)..8 * (j + |data| / 64) + 64])
    decreases |data|
  {
    if |data| < 64 {
      assert data + stripe == stripe && stripe[..64] == stripe && stripe[64..] == [];
    } else {
      assert (data + stripe)[..64] == data[..64] && (data + stripe)[64..] == data[64..] + stripe;
      AccumulateSnoc(k, secret, k.accumulate512(a, data[..64], secret[8 * j..8 * j + 64]), j + 1, data[64..], stripe);
    }
  }

  /** Inside one block, absorbing is accumulating, with one scramble if the block fills up. */
  lemma {:induction false} AbsorbWithinBlock<A>(k: Kernel<A>, secret: seq<byte>, a: A, j: nat, data: seq<byte>)
    requires |secret| >= SECRET_SIZE_MIN && |data| % 64 == 0
    requires j < StripesPerBlock(secret) && j + |data| / 64 <= StripesPerBlock(secret)
    ensures Absorb(k, secret, Progress(a, j), data)
         == var b := AccumulateAll(k, secret, a, j, data);
            if j + |data| / 64 == StripesPerBlock(secret) then Progress(k.scramble(b, secret[|secret| - 64..]), 0)
            else Progress(b, j + |data| / 64)
    decreases |data|
  {
    if |data| >= 64 {
      var next := k.accumulate512(a, data[..64], secret[8 * j..8 * j + 64]);
      if j + 1 < StripesPerBlock(secret) {
        AbsorbWithinBlock(k, secret, next, j + 1, data[64..]);
      } else {
        assert data[64..] == [];
      }
    }
  }

  /** One more stripe of the input. */
  lemma AccumulateNext<A>(k: Kernel<A>, secret: seq<byte>, a: A, j: nat, input: seq<byte>, offset: nat, n: nat)
    requires offset + 64 * (n + 1) <= |input| && 8 * (j + n + 1) + 56 <= |secret|
    ensures |input[offset..offset + 64 * n]| % 64 == 0 && |input[offset..offset + 64 * n]| / 64 == n
    ensures |input[offset..offset + 64 * (n + 1)]| % 64 == 0 && |input[offset..offset + 64 * (n + 1)]| / 64 == n + 1
    ensures AccumulateAll(k, secret, a, j, input[offset..offset + 64 * (n + 1)]) ==
      k.accumulate512(AccumulateAll(k, secret, a, j, input[offset..offset + 64 * n]),
        input[offset + 64 * n..offset + 64 * n + 64], secret[8 * (j + n)..8 * (j + n) + 64])
  {
    hide AccumulateAll;
    var at := offset + 64 * n;
    AccumulateSnoc(k, secret, a, j, input[offset..at], input[at..at + 64]);
    assert input[offset..at] + input[at..at + 64] == input[offset..at + 64];
  }

  lemma AccumulateNone<A>(k: Kernel<A>, secret: seq<byte>, a: A, j: nat, input: seq<byte>, offset: nat)
    requires offset <= |input| && 8 * j + 56 <= |secret|
    ensures AccumulateAll(k, secret, a, j, input[offset..offset]) == a
  {}

  /** XXH3_accumulate: the inner loop. */
  method Accumulate<A>(k: Kernel<A>, acc: A, input: seq<byte>, offset: nat, secret: seq<byte>,
    secretIndex: nat, nbStripes: nat)
    returns (r: A)
    requires offset + 64 * nbStripes <= |input| && 8 * (secretIndex + nbStripes) + 56 <= |secret|
    ensures r == AccumulateAll(k, secret, acc, secretIndex, input[offset..offset + 64 * nbStripes])
  {
    hide AccumulateAll;
    r := acc;
    var n := 0;
    AccumulateNone(k, secret, acc, secretIndex, input, offset);
    while n < nbStripes
      invariant 0 <= n <= nbStripes
      invariant r == AccumulateAll(k, secret, acc, secretIndex, input[offset..offset + 64 * n])
    {
      AccumulateNext(k, secret, acc, secretIndex, input, offset, n);
      var at := offset + 64 * n;
      r := k.accumulate512(r, input[at..at + 64], secret[8 * (secretIndex + n)..8 * (secretIndex + n) + 64]);
      n := n + 1;
    }
  }

  /** Up to the end of the current block: accumulate, and scramble exactly at the end. */
  method AccumulateInBlock<A>(k: Kernel<A>, p: Progress<A>, input: seq<byte>, offset: nat,
    secret: seq<byte>, nbStripes: nat)
    returns (r: Progress<A>)
    requires |secret| >= SECRET_SIZE_MIN && p.soFar < StripesPerBlock(secret)
    requires p.soFar + nbStripes <= StripesPerBlock(secret)
    requires offset + 64 * nbStripes <= |input|
    ensures r == Absorb(k, secret, p, input[offset..offset + 64 * nbStripes])
    ensures r.soFar == if p.soFar + nbStripes == StripesPerBlock(secret) then 0 else p.soFar + nbStripes
  {
    var a := Accumulate(k, p.acc, input, offset, secret, p.soFar, nbStripes);
    AbsorbWithinBlock(k, secret, p.acc, p.soFar, input[offset..offset + 64 * nbStripes]);
    if p.soFar + nbStripes == StripesPerBlock(secret) {
      r := Progress(k.scramble(a, secret[|secret| - 64..]), 0);
    } else {
      r := Progress(a, p.soFar + nbStripes);
    }
  }

  lemma AbsorbSplit<A>(k: Kernel<A>, secret: seq<byte>, p: Progress<A>, input: seq<byte>, i: nat, j: nat, l: nat)
    requires |secret| >= SECRET_SIZE_MIN && p.soFar < StripesPerBlock(secret)
    requires i <= j <= l <= |input| && (j - i) % 64 == 0
    ensures Absorb(k, secret, p, input[i..l]) == Absorb(k, secret, Absorb(k, secret, p, input[i..j]), input[j..l])
  {
    assert input[i..l] == input[i..j] + input[j..l];
    AbsorbConcat(k, secret, p, input[i..j], input[j..l]);
  }

  /** The number of blocks in front of the last one. */
  method CountBlocks(secret: seq<byte>, len: nat) returns (nbBlocks: nat)
    requires |secret| >= SECRET_SIZE_MIN && len > 0
    ensures Split(len, StripesPerBlock(secret), nbBlocks * (64 * StripesPerBlock(secret)))
  {
    var nbStripesPerBlock := StripesPerBlock(secret);
    var blockLen := STRIPE_LEN * nbStripesPerBlock;
    nbBlocks := (len - 1) / blockLen;
    BlocksAndStripes(len - 1, nbStripesPerBlock, blockLen, nbBlocks, nbBlocks * blockLen);
  }

  /** After this many bytes less than a block of whole stripes is left. */
  predicate Split(len: nat, perBlock: nat, whole: nat)
  {
    && whole < len
    && whole + (len - 1 - whole) / 64 * 64 == (len - 1) / 64 * 64
    && (len - 1 - whole) / 64 < perBlock
  }

  /** The one-shot loop over whole blocks, the last partial block and the last stripe. */
  method HashLongLoop<A>(k: Kernel<A>, input: seq<byte>, secret: seq<byte>) returns (hash: nat)
    requires |secret| >= SECRET_SIZE_MIN && |input| > MIDSIZE_MAX
    ensures hash == HashLong(k, input, secret)
  {
    hide Absorb, Finish, LastSecret, StripesPerBlock;
    var nbBlocks := CountBlocks(secret, |input|);
    var p, offset := WholeBlocks(k, input, secret, nbBlocks);
    var nbStripes := (|input| - 1 - offset) / STRIPE_LEN;
    ghost var end := (|input| - 1) / 64 * 64;
    AbsorbSplit(k, secret, Progress(k.init, 0), input, 0, offset, end);
    p := AccumulateInBlock(k, p, input, offset, secret, nbStripes);
    assert input[0..end] == input[..end];
    var a := k.accumulate512(p.acc, input[|input| - 64..], LastSecret(secret));
    hash := Finish(k, a, secret, |input|);
  }

  /** The loop over the blocks that are not the last one: accumulate a whole block, then scramble. */
  method WholeBlocks<A>(k: Kernel<A>, input: seq<byte>, secret: seq<byte>, nbBlocks: nat)
    returns (p: Progress<A>, offset: nat)
    requires |secret| >= SECRET_SIZE_MIN && nbBlocks * (64 * StripesPerBlock(secret)) <= |input|
    ensures offset == nbBlocks * (64 * StripesPerBlock(secret)) && offset % 64 == 0
    ensures p == Absorb(k, secret, Progress(k.init, 0), input[0..offset]) && p.soFar == 0
  {
    hide Absorb, StripesPerBlock;
    var nbStripesPerBlock := StripesPerBlock(secret);
    var blockLen := 64 * nbStripesPerBlock;
    p, offset := Progress(k.init, 0), 0;
    var n := 0;
    NothingAbsorbed(k, secret, p, input[0..0]);
    while n < nbBlocks
      invariant 0 <= n <= nbBlocks && offset == n * blockLen && offset % 64 == 0 && offset <= |input|
      invariant p == Absorb(k, secret, Progress(k.init, 0), input[0..offset]) && p.soFar == 0
    {
      BlockFits(n, nbBlocks, blockLen);
      var next := offset + blockLen;
      AbsorbSplit(k, secret, Progress(k.init, 0), input, 0, offset, next);
      p := AccumulateInBlock(k, p, input, offset, secret, nbStripesPerBlock);
      offset, n := next, n + 1;
    }
  }

  lemma NothingAbsorbed<A>(k: Kernel<A>, secret: seq<byte>, p: Progress<A>, none: seq<byte>)
    requires |secret| >= SECRET_SIZE_MIN && p.soFar < StripesPerBlock(secret) && none == []
    ensures Absorb(k, secret, p, none) == p
  {}

  lemma BlockFits(n: nat, blocks: nat, len: nat)
    requires n < blocks
    ensures (n + 1) * len == n * len + len <= blocks * len
  {
    var more: nat := blocks - (n + 1);
    assert blocks * len == (n + 1) * len + more * len;
  }

  /** Whole blocks plus the stripes of the partial block are all the whole stripes. */
  lemma BlocksAndStripes(m: nat, perBlock: nat, len: nat, blocks: nat, whole: nat)
    requires perBlock > 0 && len == 64 * perBlock
    requires blocks == m / len && whole == blocks * len
    ensures whole <= m
    ensures whole + (m - whole) / 64 * 64 == m / 64 * 64
    ensures (m - whole) / 64 < perBlock
  {
    DivisionBounds(m, len, blocks, whole);
    MultipleOf64(blocks, perBlock, len, whole);
  }

  lemma DivisionBounds(m: nat, len: nat, q: nat, product: nat)
    requires len > 0 && q == m / len && product == q * len
    ensures product <= m < product + len
  {}

  lemma MultipleOf64(n: nat, perBlock: nat, len: nat, product: nat)
    requires len == 64 * perBlock && product == n * len
    ensures product % 64 == 0
  {
    assert product == 64 * (n * perBlock);
  }
}
