/**
 XXH3 64-bit streaming: a 256-byte buffer in front of the stripe loop.

 A state is reset in one of four ways, fed by any number of updates, and can be
 digested at any point.  The digest is always the one-shot hash of everything fed
 since the last successful reset.
 */
module Xxh3Stream {
  import opened Bytes
  import opened Words
  import opened Options
  import opened Xxh3

  const BUFFER_SIZE: nat := 256
  const BUFFER_STRIPES: nat := 4

  /** An unsigned 64-bit subtraction: short sizes wrap around. */
  function SizeMinusStripe(size: nat): nat
  {
    if size >= STRIPE_LEN then size - STRIPE_LEN else TWO_64 + size - STRIPE_LEN
  }

  class State<!A> {
    const kernel: Kernel<A>
    var acc: A
    var customSecret: seq<byte>
    const buffer: array<byte>
    var bufferedSize: nat
    var useSeed: bool
    var nbStripesSoFar: nat
    var totalLen: nat
    var nbStripesPerBlock: nat
    var secretLimit: nat
    var seed: nat
    var extSecret: Option<seq<byte>>

    ghost var total: seq<byte>
    ghost var absorbed: nat

    function Secret(): seq<byte>
      reads this
    {
      if extSecret.None? then customSecret else extSecret.value
    }

    /** Holds whatever resets came before, failed ones included: a cached secret may be reused. */
    ghost predicate CacheOk()
      reads this
    {
      && kernel.Valid() && buffer.Length == BUFFER_SIZE
      && (extSecret.None? && seed != 0 ==> customSecret == kernel.customSecret(seed))
    }

    /** The keying fields stand for this mode. */
    ghost predicate Keyed(mode: Mode)
      reads this
    {
      && CacheOk() && mode.Valid()
      && |Secret()| >= SECRET_SIZE_MIN
      && secretLimit == |Secret()| - STRIPE_LEN && nbStripesPerBlock == StripesPerBlock(Secret())
      && match mode
         case Plain => !useSeed && Secret() == kernel.defaultSecret
         case WithSecret(secret) => !useSeed && Secret() == secret
         case WithSeed(s) => if s == 0 then !useSeed && Secret() == kernel.defaultSecret
                             else useSeed && seed == s && Secret() == kernel.customSecret(s)
         case WithSecretAndSeed(secret, s) => useSeed && seed == s && Secret() == secret
    }

    /** Accumulators and buffer stand for the bytes fed so far. */
    ghost predicate Fed(mode: Mode)
      reads this, buffer
    {
      && Keyed(mode)
      && bufferedSize <= BUFFER_SIZE && absorbed % 64 == 0 && absorbed + bufferedSize == |total|
      && Progress(acc, nbStripesSoFar) == Absorb(kernel, Secret(), Progress(kernel.init, 0), total[..absorbed])
      && buffer[..bufferedSize] == total[absorbed..]
      && (absorbed > 0 ==> bufferedSize > 0 && |total| > BUFFER_SIZE)
      && (absorbed > 0 && bufferedSize <= BUFFER_SIZE - 64 ==>
        buffer[BUFFER_SIZE - 64..] == total[absorbed - 64..absorbed])
    }

    /** The state between calls. */
    ghost predicate Streaming(mode: Mode)
      reads this, buffer
    {
      Fed(mode) && totalLen == |total| < TWO_64
    }

    /** XXH3_createState: only the seed is set, the rest is whatever the memory held. */
    constructor (kernel: Kernel<A>, rawSecret: seq<byte>, rawExternal: Option<seq<byte>>, rawAcc: A)
      requires kernel.Valid()
      ensures CacheOk() && this.kernel == kernel && fresh(buffer)
    {
      this.kernel := kernel;
      acc, customSecret, extSecret := rawAcc, rawSecret, rawExternal;
      buffer := new byte[BUFFER_SIZE];
      bufferedSize, useSeed, nbStripesSoFar, totalLen, nbStripesPerBlock, secretLimit := 0, false, 0, 0, 0, 0;
      seed := 0;
      total, absorbed := [], 0;
    }

    // ---------------------------------------------------------------- resets

    /** Clears the part of the state between the buffer and the key. */
    method ClearCounters()
      modifies this`bufferedSize, this`useSeed, this`nbStripesSoFar, this`totalLen, this`total, this`absorbed
      ensures bufferedSize == 0 && !useSeed && nbStripesSoFar == 0 && totalLen == 0
      ensures total == [] && absorbed == 0
    {
      bufferedSize, useSeed, nbStripesSoFar, totalLen := 0, false, 0, 0;
      total, absorbed := [], 0;
    }

    method ResetInternal(seed: nat, secret: Option<seq<byte>>, secretSize: nat)
      modifies this
      ensures bufferedSize == 0 && nbStripesSoFar == 0 && totalLen == 0 && acc == kernel.init
      ensures this.seed == seed && useSeed == (seed != 0) && extSecret == secret && customSecret == old(customSecret)
      ensures secretLimit == SizeMinusStripe(secretSize) && nbStripesPerBlock == secretLimit / SECRET_CONSUME_RATE
      ensures total == [] && absorbed == 0
    {
      ClearCounters();
      acc, this.seed, useSeed, extSecret := kernel.init, seed, seed != 0, secret;
      secretLimit := SizeMinusStripe(secretSize);
      nbStripesPerBlock := secretLimit / SECRET_CONSUME_RATE;
    }

    method Reset()
      requires CacheOk()
      modifies this
      ensures Streaming(Plain) && total == []
    {
      ResetInternal(0, Some(kernel.defaultSecret), SECRET_DEFAULT_SIZE);
    }

    /** A null or short secret is an error, but the state has been reset all the same. */
    method ResetWithSecret(secret: Option<seq<byte>>, secretSize: nat) returns (ok: bool)
      requires CacheOk() && secretSize < TWO_64
      requires secret.Some? ==> |secret.value| == secretSize
      modifies this
      ensures CacheOk()
      ensures ok <==> secret.Some? && secretSize >= 136
      ensures ok ==> Streaming(WithSecret(secret.value)) && total == []
    {
      ResetInternal(0, secret, secretSize);
      ok := secret.Some? && secretSize >= SECRET_SIZE_MIN;
    }

    /** Derives the secret from the seed only when the cached one is for another seed. */
    method ResetWithSeed(seed: nat)
      requires CacheOk()
      modifies this
      ensures Streaming(WithSeed(seed)) && total == []
    {
      if seed == 0 {
        Reset();
      } else {
        if seed != this.seed || extSecret.Some? {
          customSecret := kernel.customSecret(seed);
        }
        ResetInternal(seed, None, SECRET_DEFAULT_SIZE);
      }
    }

    /** On an error nothing is touched; the seed counts even when it is zero. */
    method ResetWithSecretAndSeed(secret: Option<seq<byte>>, secretSize: nat, seed: nat) returns (ok: bool)
      requires CacheOk() && secretSize < TWO_64
      requires secret.Some? ==> |secret.value| == secretSize
      modifies this
      ensures CacheOk()
      ensures ok <==> secret.Some? && secretSize >= 136
      ensures ok ==> Streaming(WithSecretAndSeed(secret.value, seed)) && total == []
      ensures !ok ==> unchanged(this)
    {
      if secret.None? || secretSize < SECRET_SIZE_MIN {
        return false;
      }
      ResetInternal(seed, secret, secretSize);
      useSeed := true;
      ok := true;
    }

    // ---------------------------------------------------------------- update

    method CopyIntoBuffer(at: nat, input: seq<byte>)
      requires at + |input| <= buffer.Length
      modifies buffer
      ensures buffer[..] == old(buffer[..at]) + input + old(buffer[at + |input|..])
    {
      forall i | 0 <= i < |input| {
        buffer[at + i] := input[i];
      }
      assert buffer[..at] == old(buffer[..at]);
      assert buffer[at..at + |input|] == input;
      assert buffer[at + |input|..] == old(buffer[at + |input|..]);
    }

    method Update(input: seq<byte>, ghost mode: Mode)
      requires Streaming(mode) && |total| + |input| < TWO_64
      modifies this`acc, this`bufferedSize, this`nbStripesSoFar, this`totalLen, this`total, this`absorbed, buffer
      ensures Streaming(mode) && total == old(total) + input
    {
      totalLen := totalLen + |input|;
      if bufferedSize + |input| <= BUFFER_SIZE {
        Buffer(input, mode);
      } else {
        Ingest(input, mode);
      }
    }

    /** Small input: it fits behind what is already buffered. */
    method Buffer(input: seq<byte>, ghost mode: Mode)
      requires totalLen == |total| + |input| < TWO_64 && Fed(mode)
      requires bufferedSize + |input| <= BUFFER_SIZE
      modifies this`bufferedSize, this`total, buffer
      ensures Streaming(mode) && total == old(total) + input
    {
      CopyIntoBuffer(bufferedSize, input);
      ghost var before := old(buffer[..]);
      bufferedSize := bufferedSize + |input|;
      total := total + input;
      assert total[..absorbed] == old(total[..absorbed]);
      assert buffer[..bufferedSize] == total[absorbed..] by {
        assert buffer[..bufferedSize] == buffer[..][..bufferedSize];
        assert total[absorbed..] == old(total[absorbed..]) + input;
      }
      if absorbed > 0 && bufferedSize <= BUFFER_SIZE - 64 {
        assert buffer[BUFFER_SIZE - 64..] == before[BUFFER_SIZE - 64..];
        assert total[absorbed - 64..absorbed] == old(total[absorbed - 64..absorbed]);
      }
    }

    /** Large input: fill and drain the buffer, drain the input, buffer what remains. */
    method Ingest(input: seq<byte>, ghost mode: Mode)
      requires totalLen == |total| + |input| < TWO_64 && Fed(mode)
      requires bufferedSize + |input| > BUFFER_SIZE
      modifies this`acc, this`bufferedSize, this`nbStripesSoFar, this`total, this`absorbed, buffer
      ensures Streaming(mode) && total == old(total) + input
    {
      hide Absorb, StripesPerBlock, Consumed;
      var p, j := Drain(input, mode);
      BufferRest(p, input, j, total + input, mode);
    }

    /** Everything up to pos has been consumed, and the buffer's tail remembers the last stripe. */
    ghost predicate Consumed(all: seq<byte>, pos: nat, p: Progress<A>)
      requires |Secret()| >= SECRET_SIZE_MIN && buffer.Length == BUFFER_SIZE
      reads this, buffer
    {
      && 64 <= pos <= |all| && pos % 64 == 0
      && buffer[BUFFER_SIZE - 64..] == all[pos - 64..pos]
      && p == Absorb(kernel, Secret(), Progress(kernel.init, 0), all[..pos])
    }

    /** Consumes the buffer, then the input down to what the buffer can hold. */
    method Drain(input: seq<byte>, ghost mode: Mode) returns (r: Progress<A>, j: nat)
      requires Fed(mode) && bufferedSize + |input| > BUFFER_SIZE
      modifies this`bufferedSize, buffer
      ensures j < |input| && |input| - j <= BUFFER_SIZE
      ensures Consumed(total + input, |total| + j, r)
    {
      hide Absorb, StripesPerBlock, Fed, Keyed, CacheOk, Consumed;
      var p, i := DrainBuffer(input, mode);
      r, j := DrainInput(total, p, input, i);
    }

    /** Consumes the input, if it is longer than the buffer, down to what the buffer can hold. */
    method DrainInput(ghost before: seq<byte>, p: Progress<A>, input: seq<byte>, i: nat)
      returns (r: Progress<A>, j: nat)
      requires buffer.Length == BUFFER_SIZE && i < |input|
      requires |Secret()| >= SECRET_SIZE_MIN && nbStripesPerBlock == StripesPerBlock(Secret())
      requires Started(before, input, i, p)
      modifies buffer
      ensures j < |input| && |input| - j <= BUFFER_SIZE
      ensures Consumed(before + input, |before| + j, r)
    {
      hide Absorb;
      if |input| - i > nbStripesPerBlock * STRIPE_LEN {
        r, j := IngestBlocks(p, input, i);
        NowConsumed(before, input, i, j, p, r);
      } else if |input| - i > BUFFER_SIZE {
        r, j := IngestBuffers(p, input, i);
        NowConsumed(before, input, i, j, p, r);
      } else {
        r, j := p, i;
      }
    }

    /** The input from i on is still to be consumed. */
    ghost predicate Started(before: seq<byte>, input: seq<byte>, i: nat, p: Progress<A>)
      requires |Secret()| >= SECRET_SIZE_MIN && buffer.Length == BUFFER_SIZE
      reads this, buffer
    {
      && i <= |input| && (|before| + i) % 64 == 0
      && p == Absorb(kernel, Secret(), Progress(kernel.init, 0), (before + input)[..|before| + i])
      && (|input| - i > BUFFER_SIZE || Consumed(before + input, |before| + i, p))
    }

    lemma NowConsumed(before: seq<byte>, input: seq<byte>, i: nat, j: nat, p: Progress<A>, r: Progress<A>)
      requires |Secret()| >= SECRET_SIZE_MIN && buffer.Length == BUFFER_SIZE
      requires i + 64 <= j <= |input| && (j - i) % 64 == 0 && (|before| + i) % 64 == 0
      requires p == Absorb(kernel, Secret(), Progress(kernel.init, 0), (before + input)[..|before| + i])
      requires p.soFar < StripesPerBlock(Secret())
      requires r == Absorb(kernel, Secret(), p, input[i..j])
      requires buffer[BUFFER_SIZE - 64..] == input[j - 64..j]
      ensures Consumed(before + input, |before| + j, r)
    {
      hide Absorb;
      AbsorbPending(kernel, Secret(), before, input, i, j);
      SliceOfSum(before, input, j - 64, j);
    }

    /** Fills the buffer from the input and consumes it, if anything is buffered. */
    method DrainBuffer(input: seq<byte>, ghost mode: Mode) returns (p: Progress<A>, i: nat)
      requires Fed(mode) && bufferedSize + |input| > BUFFER_SIZE
      modifies this`bufferedSize, buffer
      ensures i < |input| && bufferedSize == 0
      ensures |Secret()| >= SECRET_SIZE_MIN && nbStripesPerBlock == StripesPerBlock(Secret())
        && buffer.Length == BUFFER_SIZE
      ensures Started(total, input, i, p)
    {
      hide Absorb, Consumed;
      p, i := Progress(acc, nbStripesSoFar), 0;
      if bufferedSize != 0 {
        i := BUFFER_SIZE - bufferedSize;
        p := FillAndConsume(p, input[..i]);
        bufferedSize := 0;
        FilledIsConsumed(input, i, buffer[..], p);
      } else {
        NothingBuffered(input, mode);
      }
    }

    lemma NothingBuffered(input: seq<byte>, mode: Mode)
      requires Fed(mode) && bufferedSize == 0 && |input| > BUFFER_SIZE
      ensures Started(total, input, 0, Progress(acc, nbStripesSoFar))
    {
      assert total == [];
      assert (total + input)[..0] == total[..absorbed];
    }

    /** Completes the buffer and takes its four stripes. */
    method FillAndConsume(p: Progress<A>, part: seq<byte>) returns (r: Progress<A>)
      requires |Secret()| >= SECRET_SIZE_MIN && nbStripesPerBlock == StripesPerBlock(Secret())
      requires buffer.Length == BUFFER_SIZE && bufferedSize + |part| == BUFFER_SIZE && p.soFar < nbStripesPerBlock
      modifies buffer
      ensures buffer[..] == old(buffer[..bufferedSize]) + part
      ensures r == Absorb(kernel, Secret(), p, buffer[..]) && r.soFar < nbStripesPerBlock
    {
      hide Absorb;
      FillBuffer(part);
      r := ConsumeStripes(p, buffer[..], 0, BUFFER_STRIPES);
      assert buffer[..][0..256] == buffer[..];
    }

    lemma FilledIsConsumed(input: seq<byte>, i: nat, full: seq<byte>, p: Progress<A>)
      requires |Secret()| >= SECRET_SIZE_MIN && buffer.Length == BUFFER_SIZE
      requires absorbed % 64 == 0 && absorbed <= |total| && |total| + i == absorbed + BUFFER_SIZE
      requires Progress(acc, nbStripesSoFar) == Absorb(kernel, Secret(), Progress(kernel.init, 0), total[..absorbed])
      requires i <= |input| && full == total[absorbed..] + input[..i] && buffer[..] == full
      requires p == Absorb(kernel, Secret(), Progress(acc, nbStripesSoFar), full)
      requires nbStripesSoFar < StripesPerBlock(Secret())
      ensures Started(total, input, i, p)
    {
      hide Absorb;
      FilledBuffer(total, input, absorbed, i, full);
      AbsorbPrefix(kernel, Secret(), total + input, absorbed, |total| + i);
      assert buffer[BUFFER_SIZE - 64..] == buffer[..][BUFFER_SIZE - 64..];
    }

    method FillBuffer(part: seq<byte>)
      requires buffer.Length == BUFFER_SIZE && bufferedSize + |part| == BUFFER_SIZE
      modifies buffer
      ensures buffer[..] == old(buffer[..bufferedSize]) + part
    {
      CopyIntoBuffer(bufferedSize, part);
    }

    /** At most one block's worth of stripes, with the scramble where the block ends. */
    method ConsumeStripes(p: Progress<A>, input: seq<byte>, offset: nat, nbStripes: nat) returns (r: Progress<A>)
      requires |Secret()| >= SECRET_SIZE_MIN && nbStripesPerBlock == StripesPerBlock(Secret())
      requires nbStripes <= nbStripesPerBlock && p.soFar < nbStripesPerBlock
      requires offset + 64 * nbStripes <= |input|
      ensures r == Absorb(kernel, Secret(), p, input[offset..offset + 64 * nbStripes])
      ensures r.soFar < nbStripesPerBlock
    {
      hide Absorb;
      var end := offset + 64 * nbStripes;
      if nbStripesPerBlock - p.soFar <= nbStripes {
        var nbToEnd := nbStripesPerBlock - p.soFar;
        var nbAfter := nbStripes - nbToEnd;
        var mid := offset + 64 * nbToEnd;
        AbsorbSplit(kernel, Secret(), p, input, offset, mid, end);
        r := AccumulateInBlock(kernel, p, input, offset, Secret(), nbToEnd);
        r := AccumulateInBlock(kernel, r, input, mid, Secret(), nbAfter);
      } else {
        r := AccumulateInBlock(kernel, p, input, offset, Secret(), nbStripes);
      }
    }

    /** Keeps the last consumed stripe in the buffer's tail, for a short final stripe. */
    method RememberStripe(input: seq<byte>, j: nat)
      requires buffer.Length == BUFFER_SIZE && 64 <= j <= |input|
      modifies buffer
      ensures buffer[BUFFER_SIZE - 64..] == input[j - 64..j]
    {
      CopyIntoBuffer(BUFFER_SIZE - 64, input[j - 64..j]);
      assert buffer[BUFFER_SIZE - 64..] == buffer[..][BUFFER_SIZE - 64..];
    }

    /** More than a block: join the current block, take whole blocks, then the last partial one. */
    method IngestBlocks(p: Progress<A>, input: seq<byte>, i: nat) returns (r: Progress<A>, j: nat)
      requires buffer.Length == BUFFER_SIZE
      requires |Secret()| >= SECRET_SIZE_MIN && nbStripesPerBlock == StripesPerBlock(Secret())
      requires p.soFar < nbStripesPerBlock
      requires i <= |input| && |input| - i > nbStripesPerBlock * STRIPE_LEN
      modifies buffer
      ensures i + 64 <= j < |input| && |input| - j <= STRIPE_LEN && (j - i) % 64 == 0
      ensures r == Absorb(kernel, Secret(), p, input[i..j]) && r.soFar < nbStripesPerBlock
      ensures buffer[BUFFER_SIZE - 64..] == input[j - 64..j]
    {
      hide Absorb;
      var nbStripes := (|input| - 1 - i) / STRIPE_LEN;
      var nbToEnd := nbStripesPerBlock - p.soFar;
      r := AccumulateInBlock(kernel, p, input, i, Secret(), nbToEnd);
      j := i + nbToEnd * STRIPE_LEN;
      nbStripes := nbStripes - nbToEnd;
      while nbStripes >= nbStripesPerBlock
        invariant 0 <= nbStripes && i + 64 <= j && (j - i) % 64 == 0
          && j + 64 * nbStripes < |input| <= j + 64 * nbStripes + 64
        invariant r == Absorb(kernel, Secret(), p, input[i..j]) && r.soFar == 0
      {
        var next := j + nbStripesPerBlock * STRIPE_LEN;
        AbsorbSplit(kernel, Secret(), p, input, i, j, next);
        r := AccumulateInBlock(kernel, r, input, j, Secret(), nbStripesPerBlock);
        j, nbStripes := next, nbStripes - nbStripesPerBlock;
      }
      AbsorbSplit(kernel, Secret(), p, input, i, j, j + 64 * nbStripes);
      r := AccumulateInBlock(kernel, r, input, j, Secret(), nbStripes);
      j := j + nbStripes * STRIPE_LEN;
      RememberStripe(input, j);
    }

    /** At most a block but more than a buffer: take it a buffer's length at a time. */
    method IngestBuffers(p: Progress<A>, input: seq<byte>, i: nat) returns (r: Progress<A>, j: nat)
      requires buffer.Length == BUFFER_SIZE
      requires |Secret()| >= SECRET_SIZE_MIN && nbStripesPerBlock == StripesPerBlock(Secret())
      requires p.soFar < nbStripesPerBlock
      requires i <= |input| && |input| - i > BUFFER_SIZE
      modifies buffer
      ensures i + 64 <= j < |input| && |input| - j <= BUFFER_SIZE && (j - i) % 64 == 0
      ensures r == Absorb(kernel, Secret(), p, input[i..j]) && r.soFar < nbStripesPerBlock
      ensures buffer[BUFFER_SIZE - 64..] == input[j - 64..j]
    {
      hide Absorb;
      var limit := |input| - BUFFER_SIZE;
      r := ConsumeStripes(p, input, i, BUFFER_STRIPES);
      j := i + BUFFER_SIZE;
      while j < limit
        invariant i + 64 <= j < |input| && (j - i) % 64 == 0
        invariant r == Absorb(kernel, Secret(), p, input[i..j]) && r.soFar < nbStripesPerBlock
      {
        AbsorbSplit(kernel, Secret(), p, input, i, j, j + BUFFER_SIZE);
        r := ConsumeStripes(r, input, j, BUFFER_STRIPES);
        j := j + BUFFER_SIZE;
      }
      RememberStripe(input, j);
    }

    /** The remaining input, never empty, becomes the buffer's contents. */
    method BufferRest(p: Progress<A>, input: seq<byte>, j: nat, ghost all: seq<byte>, ghost mode: Mode)
      requires Keyed(mode) && totalLen == |all| < TWO_64 && all == total + input && |all| > BUFFER_SIZE
      requires j < |input| && |input| - j <= BUFFER_SIZE
      requires Consumed(all, |total| + j, p)
      modifies this`acc, this`bufferedSize, this`nbStripesSoFar, this`total, this`absorbed, buffer
      ensures Streaming(mode) && total == all
    {
      hide Absorb;
      ghost var before, rest := buffer[..], input[j..];
      ghost var pos := |total| + j;
      CopyIntoBuffer(0, input[j..]);
      bufferedSize := |input| - j;
      acc, nbStripesSoFar := p.acc, p.soFar;
      total, absorbed := all, pos;
      assert all[pos..] == rest;
      assert buffer[..bufferedSize] == buffer[..][..bufferedSize] == rest;
      if bufferedSize <= BUFFER_SIZE - 64 {
        assert buffer[BUFFER_SIZE - 64..] == buffer[..][BUFFER_SIZE - 64..] == before[BUFFER_SIZE - 64..];
      }
    }

    // ---------------------------------------------------------------- digest

    /** Finishes on a copy of the accumulators; the state can be fed further. */
    method DigestLong(ghost mode: Mode) returns (a: A)
      requires Streaming(mode) && |total| > MIDSIZE_MAX
      ensures Finish(kernel, a, Secret(), |total|) == HashLong(kernel, total, Secret())
    {
      hide Absorb, Finish, HashLong, LastSecret, StripesPerBlock;
      HashLongIs(kernel, total, Secret());
      var p := TakeBuffered(mode);
      var lastStripe := LastStripe(mode);
      a := kernel.accumulate512(p.acc, lastStripe, LastSecret(Secret()));
    }

    /** The whole stripes still in the buffer, but for the last byte, on a copy of the accumulators. */
    method TakeBuffered(ghost mode: Mode) returns (p: Progress<A>)
      requires Streaming(mode) && |total| > MIDSIZE_MAX
      ensures p == Absorb(kernel, Secret(), Progress(kernel.init, 0), total[..(|total| - 1) / 64 * 64])
    {
      hide Absorb;
      p := Progress(acc, nbStripesSoFar);
      WholeInBuffer(|total|, absorbed, bufferedSize);
      if bufferedSize >= STRIPE_LEN {
        var nbStripes := (bufferedSize - 1) / STRIPE_LEN;
        p := ConsumeStripes(p, buffer[..bufferedSize], 0, nbStripes);
        AbsorbPrefix(kernel, Secret(), total, absorbed, absorbed + 64 * nbStripes);
        BufferedSlice(total, absorbed, buffer[..bufferedSize], 64 * nbStripes);
      }
    }

    /** The last 64 bytes fed, part of them perhaps already consumed. */
    method LastStripe(ghost mode: Mode) returns (stripe: seq<byte>)
      requires Streaming(mode) && |total| > MIDSIZE_MAX
      ensures stripe == total[|total| - 64..]
    {
      hide Absorb;
      if bufferedSize >= STRIPE_LEN {
        stripe := buffer[bufferedSize - 64..bufferedSize];
        assert stripe == buffer[..bufferedSize][bufferedSize - 64..];
      } else {
        var catchup := STRIPE_LEN - bufferedSize;
        stripe := buffer[BUFFER_SIZE - catchup..] + buffer[..bufferedSize];
        assert buffer[BUFFER_SIZE - catchup..] == buffer[BUFFER_SIZE - 64..][64 - catchup..];
        TailOf(total, absorbed, catchup);
      }
    }

    /** The one-shot hash of everything fed, up to 240 bytes and beyond. */
    method Digest(ghost mode: Mode) returns (hash: nat)
      requires Streaming(mode)
      ensures hash == OneShot(kernel, mode, total)
      ensures var secret := if mode.WithSecret? then mode.secret else kernel.defaultSecret;
        var seed := if mode.WithSeed? || mode.WithSecretAndSeed? then mode.seed else 0;
        && |secret| >= 136
        && (|total| <= 16 ==> hash == kernel.len0to16(total, secret, seed))
        && (16 < |total| <= 128 ==> hash == kernel.len17to128(total, secret, seed))
        && (128 < |total| <= 240 ==> hash == kernel.len129to240(total, secret, seed))
      ensures |total| > 240 ==>
        var secret :=
          if mode.WithSecret? || mode.WithSecretAndSeed? then mode.secret
          else if mode.WithSeed? && mode.seed != 0 then kernel.customSecret(mode.seed)
          else kernel.defaultSecret;
        && |secret| >= 136
        && var a := Absorb(kernel, secret, Progress(kernel.init, 0), total[..(|total| - 1) / 64 * 64]).acc;
           hash == kernel.mergeAccs(
             kernel.accumulate512(a, total[|total| - 64..], secret[|secret| - 71..|secret| - 7]),
             secret[11..75], |total| * 0x9E3779B185EBCA87 % 0x1_0000_0000_0000_0000)
    {
      hide Absorb, OneShot, HashLong, Finish;
      hash := DigestOneShot(mode);
      if |total| <= 240 {
        ShortHashIs(kernel, mode, total);
      } else {
        LongHashIs(kernel, mode, total);
      }
    }

    method DigestOneShot(ghost mode: Mode) returns (hash: nat)
      requires Streaming(mode)
      ensures hash == OneShot(kernel, mode, total)
    {
      hide Absorb;
      if totalLen > MIDSIZE_MAX {
        var a := DigestLong(mode);
        hash := Finish(kernel, a, Secret(), totalLen);
      } else {
        assert buffer[..totalLen] == total;
        if useSeed {
          hash := HashShort(kernel, buffer[..totalLen], seed, kernel.defaultSecret);
        } else {
          hash := HashShort(kernel, buffer[..totalLen], 0, Secret());
        }
      }
    }
  }

  /** A full buffer is a stretch of what has been fed. */
  lemma FilledBuffer(total: seq<byte>, input: seq<byte>, absorbed: nat, i: nat, full: seq<byte>)
    requires absorbed <= |total| && i <= |input| && |full| == BUFFER_SIZE
    requires full == total[absorbed..] + input[..i]
    ensures (total + input)[absorbed..|total| + i] == full
    ensures (total + input)[..absorbed] == total[..absorbed]
    ensures (total + input)[|total| + i - 64..|total| + i] == full[BUFFER_SIZE - 64..]
  {}

  /** The whole stripes before the last byte end where those in the buffer do. */
  lemma WholeInBuffer(total: nat, absorbed: nat, buffered: nat)
    requires absorbed % 64 == 0 && absorbed + buffered == total && buffered > 0
    ensures (total - 1) / 64 * 64 == absorbed + 64 * ((buffered - 1) / 64)
  {}

  lemma BufferedSlice(total: seq<byte>, absorbed: nat, buffered: seq<byte>, n: nat)
    requires absorbed <= |total| && buffered == total[absorbed..] && n <= |buffered|
    ensures buffered[0..n] == total[absorbed..absorbed + n]
  {}

  lemma TailOf(total: seq<byte>, absorbed: nat, catchup: nat)
    requires 64 <= absorbed <= |total| && catchup <= 64 && |total| - absorbed == 64 - catchup
    ensures total[absorbed - 64..absorbed][64 - catchup..] + total[absorbed..] == total[|total| - 64..]
  {}

  lemma AbsorbPending<A>(k: Kernel<A>, secret: seq<byte>, total: seq<byte>, input: seq<byte>, i: nat, j: nat)
    requires |secret| >= SECRET_SIZE_MIN && i <= j <= |input| && (|total| + i) % 64 == 0
    ensures Absorb(k, secret, Progress(k.init, 0), (total + input)[..|total| + j])
         == Absorb(k, secret, Absorb(k, secret, Progress(k.init, 0), (total + input)[..|total| + i]), input[i..j])
  {
    hide Absorb;
    AbsorbPrefix(k, secret, total + input, |total| + i, |total| + j);
    SliceOfSum(total, input, i, j);
  }

  lemma SliceOfSum(a: seq<byte>, b: seq<byte>, i: nat, j: nat)
    requires i <= j <= |b|
    ensures (a + b)[|a| + i..|a| + j] == b[i..j]
  {}

  lemma AbsorbPrefix<A>(k: Kernel<A>, secret: seq<byte>, all: seq<byte>, i: nat, j: nat)
    requires |secret| >= SECRET_SIZE_MIN && i <= j <= |all| && i % 64 == 0
    ensures Absorb(k, secret, Progress(k.init, 0), all[..j])
         == Absorb(k, secret, Absorb(k, secret, Progress(k.init, 0), all[..i]), all[i..j])
  {
    AbsorbSplit(k, secret, Progress(k.init, 0), all, 0, i, j);
    assert all[0..i] == all[..i] && all[0..j] == all[..j];
  }

  // ---------------------------------------------------------------- whole runs

  /** Every way of cutting an input into updates digests, after each update, to the one-shot hash so far. */
  method HashInChunks<A>(k: Kernel<A>, mode: Mode, chunks: seq<seq<byte>>, raw: A) returns (digests: seq<nat>)
    requires k.Valid() && mode.Valid() && |Flatten(chunks)| < TWO_64
    requires (mode.WithSecret? || mode.WithSecretAndSeed?) ==> |mode.secret| < TWO_64
    ensures |digests| == |chunks|
    ensures forall i | 0 <= i < |chunks| :: digests[i] == OneShot(k, mode, Flatten(chunks[..i + 1]))
  {
    hide OneShot, Absorb, Flatten;
    var st := NewStream(k, mode, raw);
    FlattenNone(chunks);
    digests := [];
    var i := 0;
    while i < |chunks|
      invariant 0 <= i <= |chunks| && |digests| == i
      invariant fresh(st) && fresh(st.buffer) && st.kernel == k
      invariant st.Streaming(mode) && st.total == Flatten(chunks[..i])
      invariant forall j | 0 <= j < i :: digests[j] == OneShot(k, mode, Flatten(chunks[..j + 1]))
    {
      FlattenNext(chunks, i);
      FlattenGrows(chunks, i + 1);
      var d := FeedAndDigest(st, mode, chunks[i]);
      digests := digests + [d];
      i := i + 1;
    }
  }

  /** A new state, reset for the mode. */
  method NewStream<A>(k: Kernel<A>, mode: Mode, raw: A) returns (st: State<A>)
    requires k.Valid() && mode.Valid()
    requires (mode.WithSecret? || mode.WithSecretAndSeed?) ==> |mode.secret| < TWO_64
    ensures fresh(st) && fresh(st.buffer) && st.kernel == k
    ensures st.Streaming(mode) && st.total == []
  {
    hide Absorb;
    st := new State(k, [], None, raw);
    var ok := true;
    match mode {
      case Plain => st.Reset();
      case WithSecret(secret) => ok := st.ResetWithSecret(Some(secret), |secret|);
      case WithSeed(seed) => st.ResetWithSeed(seed);
      case WithSecretAndSeed(secret, seed) => ok := st.ResetWithSecretAndSeed(Some(secret), |secret|, seed);
    }
  }

  method FeedAndDigest<A>(st: State<A>, mode: Mode, chunk: seq<byte>) returns (digest: nat)
    requires st.Streaming(mode) && |st.total| + |chunk| < TWO_64
    modifies st, st.buffer
    ensures st.Streaming(mode) && st.total == old(st.total) + chunk
    ensures digest == OneShot(st.kernel, mode, st.total)
  {
    hide Absorb, OneShot;
    st.Update(chunk, mode);
    digest := st.Digest(mode);
  }
}
