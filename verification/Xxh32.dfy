/**
 XXH32: the hash of one contiguous input, and a state that is fed piece by piece.
 */
module Xxh32 {
  import opened Bytes
  import opened LaneHash
  import opened Words

  const PRIME32_1: nat := 0x9E3779B1
  const PRIME32_2: nat := 0x85EBCA77
  const PRIME32_3: nat := 0xC2B2AE3D
  const PRIME32_4: nat := 0x27D4EB2F
  const PRIME32_5: nat := 0x165667B1

  /** A length cut to 32 bits. */
  function Cut32(n: nat): nat { n % TWO_32 }

  function Plus(a: nat, b: nat): nat { Add(a, b, TWO_32) }

  function Times(a: nat, b: nat): nat { Mul(a, b, TWO_32) }

  function Rotl1(x: nat): nat { Rotate(x, 0x2, 0x8000_0000) }

  function Rotl7(x: nat): nat { Rotate(x, 0x80, 0x200_0000) }

  function Rotl11(x: nat): nat { Rotate(x, 0x800, 0x20_0000) }

  function Rotl12(x: nat): nat { Rotate(x, 0x1000, 0x10_0000) }

  function Rotl13(x: nat): nat { Rotate(x, 0x2000, 0x8_0000) }

  function Rotl17(x: nat): nat { Rotate(x, 0x2_0000, 0x8000) }

  function Rotl18(x: nat): nat { Rotate(x, 0x4_0000, 0x4000) }

  function Round(acc: nat, input: nat): nat
  {
    Times(Rotl13(Plus(acc, Times(input, PRIME32_2))), PRIME32_1)
  }

  function Avalanche(h: nat): nat
  {
    var h1 := Times(Xor(h, h / 0x8000), PRIME32_2);
    var h2 := Times(Xor(h1, h1 / 0x2000), PRIME32_3);
    Xor(h2, h2 / 0x1_0000)
  }

  function Process1(h: nat, b: byte): nat
  {
    Times(Rotl11(Plus(h, Times(b as nat, PRIME32_5))), PRIME32_1)
  }

  function Process4(h: nat, word: seq<byte>): nat
  {
    Times(Rotl17(Plus(h, Times(ReadLE(word), PRIME32_3))), PRIME32_4)
  }

  /** The remaining bytes, four at a time and then one at a time. */
  function MixTail(h: nat, tail: seq<byte>): nat
    decreases |tail|
  {
    if |tail| >= 4 then MixTail(Process4(h, tail[..4]), tail[4..])
    else if |tail| > 0 then MixTail(Process1(h, tail[0]), tail[1..])
    else h
  }

  function Start(seed: nat): Lanes<nat>
  {
    Lanes(Plus(Plus(seed, PRIME32_1), PRIME32_2), Plus(seed, PRIME32_2), seed, Sub(seed, PRIME32_1, TWO_32))
  }

  function Converge(v: Lanes<nat>): nat
  {
    Plus(Plus(Plus(Rotl1(v.v0), Rotl7(v.v1)), Rotl12(v.v2)), Rotl18(v.v3))
  }

  /** XXH32 of a whole input. */
  function Hash(input: seq<byte>, seed: nat): nat
  {
    var h := if |input| >= 16 then Converge(Absorb(Round, 4, Start(seed), input)) else Plus(seed, PRIME32_5);
    Avalanche(MixTail(Plus(h, Cut32(|input|)), input[|input| - |input| % 16..]))
  }

  /** XXH32_finalize */
  method Finalize(h: nat, tail: seq<byte>) returns (r: nat)
    ensures r == Avalanche(MixTail(h, tail))
  {
    hide Avalanche, Process1, Process4;
    r := h;
    var p := 0;
    while p + 4 <= |tail|
      invariant p <= |tail| && MixTail(r, tail[p..]) == MixTail(h, tail)
    {
      assert tail[p..][..4] == tail[p..p + 4] && tail[p..][4..] == tail[p + 4..];
      r := Process4(r, tail[p..p + 4]);
      p := p + 4;
    }
    while p < |tail|
      invariant |tail| - 4 < p <= |tail| && MixTail(r, tail[p..]) == MixTail(h, tail)
    {
      assert tail[p..][0] == tail[p] && tail[p..][1..] == tail[p + 1..];
      r := Process1(r, tail[p]);
      p := p + 1;
    }
    r := Avalanche(r);
  }

  /** XXH32_endian_align */
  method OneShot(input: seq<byte>, seed: nat) returns (h: nat)
    ensures h == Hash(input, seed)
  {
    hide Avalanche, Round, MixTail, Plus, Start, Absorb;
    var p := 0;
    if |input| >= 16 {
      var v;
      v, p := TakeStripes(Round, 4, Start(seed), input);
      WholeStripes(input, p, Start(seed));
      h := Converge(v);
    } else {
      h := Plus(seed, PRIME32_5);
    }
    h := Finalize(Plus(h, Cut32(|input|)), input[p..]);
  }

  /** Whole stripes end where the length says, and the rest adds nothing to the lanes. */
  lemma WholeStripes(input: seq<byte>, p: nat, v: Lanes<nat>)
    requires p <= |input| < p + 16 && Whole(input[..p], 16)
    ensures p == |input| - |input| % 16
    ensures Absorb(Round, 4, v, input) == Absorb(Round, 4, v, input[..p])
  {
    hide Round, Whole, Absorb;
    var k := WholeLength(input[..p], 16);
    AbsorbLess(Round, 4, Absorb(Round, 4, v, input[..p]), input[p..]);
    AbsorbConcat(Round, 4, v, input[..p], input[p..]);
    assert input == input[..p] + input[p..];
  }

  class State {
    var totalLen32: nat
    var largeLen: bool
    var v: Lanes<nat>
    const mem: array<byte>
    var memsize: nat

    ghost var seed: nat
    ghost var total: seq<byte>

    constructor ()
      ensures fresh(mem) && mem.Length == 16
    {
      mem := new byte[16];
      v := Start(0);
    }

    /** The state after total has been fed since the reset, in whatever pieces. */
    ghost predicate Fed()
      reads this, mem
    {
      && mem.Length == 16 && memsize < 16 && memsize <= |total|
      && totalLen32 == Cut32(|total|) && (largeLen <==> |total| >= 16)
      && Whole(total[..|total| - memsize], 16)
      && v == Absorb(Round, 4, Start(seed), total[..|total| - memsize])
      && mem[..memsize] == total[|total| - memsize..]
    }

    method Reset(newSeed: nat)
      requires mem.Length == 16
      modifies this
      ensures Fed() && total == [] && seed == newSeed
    {
      totalLen32, largeLen, memsize := 0, false, 0;
      v := Start(newSeed);
      seed, total := newSeed, [];
    }

    /** XXH32_update */
    method Update(input: seq<byte>)
      requires Fed()
      modifies this, mem
      ensures Fed() && total == old(total) + input && seed == old(seed)
    {
      hide Absorb, Whole, Round, Start, Cut32;
      Count(|input|);
      ghost var done := total[..|total| - memsize];
      assert total == done + mem[..memsize];
      if memsize + |input| < 16 {
        KeepForLater(input, done);
      } else {
        UpdateStripes(input, done);
      }
    }

    /** The new bytes fit in the buffer. */
    method KeepForLater(input: seq<byte>, ghost done: seq<byte>)
      requires mem.Length == 16 && memsize + |input| < 16 && total == done + mem[..memsize]
      requires totalLen32 == Cut32(|total| + |input|) && (largeLen <==> |total| + |input| >= 16)
      requires Whole(done, 16) && v == Absorb(Round, 4, Start(seed), done)
      modifies `memsize, `total, mem
      ensures Fed() && total == old(total) + input
    {
      hide Absorb, Whole, Round, Start, Cut32, Fed;
      CopyIn(input, memsize);
      memsize := memsize + |input|;
      total := total + input;
      assert mem[..memsize] == old(mem[..memsize]) + input;
      Restored(done);
    }

    /** At least one stripe is complete. */
    method UpdateStripes(input: seq<byte>, ghost done: seq<byte>)
      requires mem.Length == 16 && memsize < 16 <= memsize + |input| && total == done + mem[..memsize]
      requires totalLen32 == Cut32(|total| + |input|) && (largeLen <==> |total| + |input| >= 16)
      requires Whole(done, 16) && v == Absorb(Round, 4, Start(seed), done)
      modifies `memsize, `total, `v, mem
      ensures Fed() && total == old(total) + input
    {
      hide Absorb, Whole, Round, Start, Cut32, Fed;
      var p := 0;
      ghost var taken := done;
      if memsize > 0 {
        p := FillAndTake(input, done);
        taken := done + mem[..];
      }
      assert taken == total + input[..p];
      if p + 16 <= |input| {
        var n;
        v, n := TakeStripes(Round, 4, v, input[p..]);
        Extend(taken, input[p..][..n]);
        taken := taken + input[p..][..n];
        p := p + n;
      }
      assert taken == total + input[..p];
      total := taken;
      KeepRest(input[p..], taken);
      assert total == old(total) + input;
    }

    /** Fewer bytes than a stripe are left. */
    method KeepRest(rest: seq<byte>, ghost taken: seq<byte>)
      requires mem.Length == 16 && |rest| < 16 && memsize == 0 && total == taken
      requires totalLen32 == Cut32(|taken| + |rest|) && (largeLen <==> |taken| + |rest| >= 16)
      requires Whole(taken, 16) && v == Absorb(Round, 4, Start(seed), taken)
      modifies `memsize, `total, mem
      ensures Fed() && total == taken + rest
    {
      hide Absorb, Whole, Round, Start, Cut32, Fed;
      if |rest| > 0 {
        CopyIn(rest, 0);
        memsize := |rest|;
      }
      total := taken + rest;
      assert mem[..memsize] == rest;
      Restored(taken);
    }

    /** The 32-bit length wraps around; whether 16 bytes have been seen is remembered apart. */
    method Count(n: nat)
      requires totalLen32 == Cut32(|total|) && (largeLen <==> |total| >= 16)
      modifies `totalLen32, `largeLen
      ensures totalLen32 == Cut32(|total| + n) && (largeLen <==> |total| + n >= 16)
    {
      AddCut32(|total|, n);
      totalLen32 := (totalLen32 + Cut32(n)) % TWO_32;
      largeLen := largeLen || n >= 16 || totalLen32 >= 16;
    }

    lemma Extend(done: seq<byte>, more: seq<byte>)
      requires Whole(done, 16) && Whole(more, 16)
      ensures Whole(done + more, 16)
      ensures Absorb(Round, 4, Start(seed), done + more) == Absorb(Round, 4, Absorb(Round, 4, Start(seed), done), more)
    {
      AbsorbConcat(Round, 4, Start(seed), done, more);
      WholeConcat(done, more, 16);
    }

    /** What is absorbed and what is buffered make up the input. */
    lemma Restored(done: seq<byte>)
      requires mem.Length == 16 && memsize < 16 && total == done + mem[..memsize]
      requires totalLen32 == Cut32(|total|) && (largeLen <==> |total| >= 16)
      requires Whole(done, 16) && v == Absorb(Round, 4, Start(seed), done)
      ensures Fed()
    {
      assert total[..|total| - memsize] == done;
    }

    /** Completes the buffered stripe with the first bytes of the input, and takes it. */
    method FillAndTake(input: seq<byte>, ghost done: seq<byte>) returns (p: nat)
      requires mem.Length == 16 && 0 < memsize < 16 <= memsize + |input|
      requires Whole(done, 16) && v == Absorb(Round, 4, Start(seed), done)
      modifies `v, `memsize, mem
      ensures p == 16 - old(memsize) && memsize == 0 && mem[..] == old(mem[..memsize]) + input[..p]
      ensures Whole(done + mem[..], 16) && v == Absorb(Round, 4, Start(seed), done + mem[..])
    {
      hide Absorb, Whole, Round, Start, TakeStripe;
      p := 16 - memsize;
      CopyIn(input[..p], memsize);
      AbsorbStripe(Round, 4, Start(seed), done, mem[..]);
      v := TakeStripe(Round, 4, v, mem[..]);
      memsize := 0;
    }

    method CopyIn(bytes: seq<byte>, at: nat)
      requires at + |bytes| <= mem.Length
      modifies mem
      ensures mem[..] == old(mem[..at]) + bytes + old(mem[at + |bytes|..])
    {
      forall i | 0 <= i < |bytes| { mem[at + i] := bytes[i]; }
    }

    /** XXH32_digest */
    method Digest() returns (h: nat)
      requires Fed()
      ensures h == Hash(total, seed)
    {
      hide Avalanche, Round, MixTail, Plus, Absorb, Converge, Whole, Cut32, Start;
      WholeStripes(total, |total| - memsize, Start(seed));
      if largeLen {
        h := Converge(v);
      } else {
        ThirdLaneIsSeed();
        h := Plus(v.v2, PRIME32_5);
      }
      h := Finalize(Plus(h, totalLen32), mem[..memsize]);
    }

    /** The buffered bytes are the length modulo the stripe. */
    lemma BufferedIsRemainder()
      requires Fed()
      ensures memsize == |total| % 16
    {
      WholeStripes(total, |total| - memsize, Start(seed));
    }

    /** Before the first stripe the third lane is still the seed. */
    lemma ThirdLaneIsSeed()
      requires Fed() && |total| < 16
      ensures v.v2 == seed
    {
      BufferedIsRemainder();
      assert total[..|total| - memsize] == [];
      assert v == Start(seed);
    }
  }

  /** Any chunking, any number of digests on the way: each is the hash of what has been fed by then. */
  method HashInChunks(chunks: seq<seq<byte>>, seed: nat) returns (digests: seq<nat>)
    ensures |digests| == |chunks| + 1
    ensures forall i | 0 <= i <= |chunks| :: digests[i] == Hash(Flatten(chunks[..i]), seed)
  {
    hide Hash, Flatten, State.Fed;
    var state := new State();
    state.Reset(seed);
    FlattenNone(chunks);
    var h := state.Digest();
    digests := [h];
    var i := 0;
    while i < |chunks|
      invariant 0 <= i <= |chunks| && |digests| == i + 1 && fresh(state) && fresh(state.mem)
      invariant state.Fed() && state.seed == seed && state.total == Flatten(chunks[..i])
      invariant forall j | 0 <= j <= i :: digests[j] == Hash(Flatten(chunks[..j]), seed)
    {
      state.Update(chunks[i]);
      FlattenNext(chunks, i);
      h := state.Digest();
      digests := digests + [h];
      i := i + 1;
    }
  }
}
