/**
 XXH64: the hash of one contiguous input, and a state that is fed piece by piece.
 */
module Xxh64 {
  import opened Bytes
  import opened LaneHash
  import opened Words

  const PRIME64_1: nat := 0x9E3779B185EBCA87
  const PRIME64_2: nat := 0xC2B2AE3D27D4EB4F
  const PRIME64_3: nat := 0x165667B19E3779F9
  const PRIME64_4: nat := 0x85EBCA77C2B2AE63
  const PRIME64_5: nat := 0x27D4EB2F165667C5

  /** A length cut to 64 bits. */
  function Cut64(n: nat): nat { n % TWO_64 }

  function Plus(a: nat, b: nat): nat { Add(a, b, TWO_64) }

  function Times(a: nat, b: nat): nat { Mul(a, b, TWO_64) }

  function Rotl1(x: nat): nat { Rotate(x, 0x2, 0x8000_0000_0000_0000) }

  function Rotl7(x: nat): nat { Rotate(x, 0x80, 0x200_0000_0000_0000) }

  function Rotl11(x: nat): nat { Rotate(x, 0x800, 0x20_0000_0000_0000) }

  function Rotl12(x: nat): nat { Rotate(x, 0x1000, 0x10_0000_0000_0000) }

  function Rotl18(x: nat): nat { Rotate(x, 0x4_0000, 0x4000_0000_0000) }

  function Rotl23(x: nat): nat { Rotate(x, 0x80_0000, 0x200_0000_0000) }

  function Rotl27(x: nat): nat { Rotate(x, 0x800_0000, 0x20_0000_0000) }

  function Rotl31(x: nat): nat { Rotate(x, 0x8000_0000, 0x2_0000_0000) }

  function Round(acc: nat, input: nat): nat
  {
    Times(Rotl31(Plus(acc, Times(input, PRIME64_2))), PRIME64_1)
  }

  function MergeRound(acc: nat, val: nat): nat
  {
    Plus(Times(Xor(acc, Round(0, val)), PRIME64_1), PRIME64_4)
  }

  function Avalanche(h: nat): nat
  {
    var h1 := Times(Xor(h, h / 0x2_0000_0000), PRIME64_2);
    var h2 := Times(Xor(h1, h1 / 0x2000_0000), PRIME64_3);
    Xor(h2, h2 / 0x1_0000_0000)
  }

  function Process1(h: nat, b: byte): nat
  {
    Times(Rotl11(Xor(h, Times(b as nat, PRIME64_5))), PRIME64_1)
  }

  function Process4(h: nat, word: seq<byte>): nat
  {
    Plus(Times(Rotl23(Xor(h, Times(ReadLE(word), PRIME64_1))), PRIME64_2), PRIME64_3)
  }

  function Process8(h: nat, word: seq<byte>): nat
  {
    Plus(Times(Rotl27(Xor(h, Round(0, ReadLE(word)))), PRIME64_1), PRIME64_4)
  }

  /** The remaining bytes: eight at a time, then four at most once, then one at a time. */
  function MixTail(h: nat, tail: seq<byte>): nat
    decreases |tail|
  {
    if |tail| >= 8 then MixTail(Process8(h, tail[..8]), tail[8..])
    else if |tail| >= 4 then MixTail(Process4(h, tail[..4]), tail[4..])
    else if |tail| > 0 then MixTail(Process1(h, tail[0]), tail[1..])
    else h
  }

  function Start(seed: nat): Lanes<nat>
  {
    Lanes(Plus(Plus(seed, PRIME64_1), PRIME64_2), Plus(seed, PRIME64_2), seed, Sub(seed, PRIME64_1, TWO_64))
  }

  function Converge(v: Lanes<nat>): nat
  {
    var h := Plus(Plus(Plus(Rotl1(v.v0), Rotl7(v.v1)), Rotl12(v.v2)), Rotl18(v.v3));
    MergeRound(MergeRound(MergeRound(MergeRound(h, v.v0), v.v1), v.v2), v.v3)
  }

  /** XXH64 of a whole input. */
  function Hash(input: seq<byte>, seed: nat): nat
  {
    var h := if |input| >= 32 then Converge(Absorb(Round, 8, Start(seed), input)) else Plus(seed, PRIME64_5);
    Avalanche(MixTail(Plus(h, Cut64(|input|)), input[|input| - |input| % 32..]))
  }

  /** XXH64_finalize */
  method Finalize(h: nat, tail: seq<byte>) returns (r: nat)
    ensures r == Avalanche(MixTail(h, tail))
  {
    hide Avalanche, Process1, Process4, Process8;
    r := h;
    var p := 0;
    while p + 8 <= |tail|
      invariant p <= |tail| && MixTail(r, tail[p..]) == MixTail(h, tail)
    {
      assert tail[p..][..8] == tail[p..p + 8] && tail[p..][8..] == tail[p + 8..];
      r := Process8(r, tail[p..p + 8]);
      p := p + 8;
    }
    if p + 4 <= |tail| {
      assert tail[p..][..4] == tail[p..p + 4] && tail[p..][4..] == tail[p + 4..];
      r := Process4(r, tail[p..p + 4]);
      p := p + 4;
    }
    while p < |tail|
      invariant |tail| - 4 < p <= |tail| && MixTail(r, tail[p..]) == MixTail(h, tail)
    {
      assert tail[p..][0] == tail[p] && tail[p..][1..] == tail[p + 1..];
      r := Process1(r, tail[p]);
      p := p + 1;
    }
    r := Avalanche(r);
  }

  lemma CutLengths(a: nat, b: nat)
    ensures Plus(Cut64(a), Cut64(b)) == Cut64(a + b)
  {
    AddCut64(a, b);
  }

  /** XXH64_endian_align */
  method OneShot(input: seq<byte>, seed: nat) returns (h: nat)
    ensures h == Hash(input, seed)
  {
    hide Avalanche, Round, MixTail, Plus, Start, Absorb;
    var p := 0;
    if |input| >= 32 {
      var v;
      v, p := TakeStripes(Round, 8, Start(seed), input);
      WholeStripes(input, p, Start(seed));
      h := Converge(v);
    } else {
      h := Plus(seed, PRIME64_5);
    }
    h := Finalize(Plus(h, Cut64(|input|)), input[p..]);
  }

  /** Whole stripes end where the length says, and the rest adds nothing to the lanes. */
  lemma WholeStripes(input: seq<byte>, p: nat, v: Lanes<nat>)
    requires p <= |input| < p + 32 && Whole(input[..p], 32)
    ensures p == |input| - |input| % 32
    ensures Absorb(Round, 8, v, input) == Absorb(Round, 8, v, input[..p])
  {
    hide Round, Whole, Absorb;
    var k := WholeLength(input[..p], 32);
    AbsorbLess(Round, 8, Absorb(Round, 8, v, input[..p]), input[p..]);
    AbsorbConcat(Round, 8, v, input[..p], input[p..]);
    assert input == input[..p] + input[p..];
  }

  class State {
    var totalLen: nat
    var v: Lanes<nat>
    const mem: array<byte>
    var memsize: nat

    ghost var seed: nat
    ghost var total: seq<byte>

    constructor ()
      ensures fresh(mem) && mem.Length == 32
    {
      mem := new byte[32];
      v := Start(0);
    }

    /** The state after total has been fed since the reset, in whatever pieces. */
    ghost predicate Fed()
      reads this, mem
    {
      && mem.Length == 32 && memsize < 32 && memsize <= |total|
      && totalLen == Cut64(|total|)
      && Whole(total[..|total| - memsize], 32)
      && v == Absorb(Round, 8, Start(seed), total[..|total| - memsize])
      && mem[..memsize] == total[|total| - memsize..]
    }

    method Reset(newSeed: nat)
      requires mem.Length == 32
      modifies this
      ensures Fed() && total == [] && seed == newSeed
    {
      totalLen, memsize := 0, 0;
      v := Start(newSeed);
      seed, total := newSeed, [];
    }

    /** XXH64_update */
    method Update(input: seq<byte>)
      requires Fed()
      modifies this, mem
      ensures Fed() && total == old(total) + input && seed == old(seed)
    {
      hide Absorb, Whole, Round, Start, Cut64;
      CutLengths(|total|, |input|);
      totalLen := Plus(totalLen, Cut64(|input|));
      ghost var done := total[..|total| - memsize];
      assert total == done + mem[..memsize];
      if memsize + |input| < 32 {
        KeepForLater(input, done);
      } else {
        UpdateStripes(input, done);
      }
    }

    /** The new bytes fit in the buffer. */
    method KeepForLater(input: seq<byte>, ghost done: seq<byte>)
      requires mem.Length == 32 && memsize + |input| < 32 && total == done + mem[..memsize]
      requires totalLen == Cut64(|total| + |input|)
      requires Whole(done, 32) && v == Absorb(Round, 8, Start(seed), done)
      modifies `memsize, `total, mem
      ensures Fed() && total == old(total) + input
    {
      hide Absorb, Whole, Round, Start, Cut64, Fed;
      CopyIn(input, memsize);
      memsize := memsize + |input|;
      total := total + input;
      assert mem[..memsize] == old(mem[..memsize]) + input;
      Restored(done);
    }

    /** At least one stripe is complete. */
    method UpdateStripes(input: seq<byte>, ghost done: seq<byte>)
      requires mem.Length == 32 && memsize < 32 <= memsize + |input| && total == done + mem[..memsize]
      requires totalLen == Cut64(|total| + |input|)
      requires Whole(done, 32) && v == Absorb(Round, 8, Start(seed), done)
      modifies `memsize, `total, `v, mem
      ensures Fed() && total == old(total) + input
    {
      hide Absorb, Whole, Round, Start, Cut64, Fed;
      var p := 0;
      ghost var taken := done;
      if memsize > 0 {
        p := FillAndTake(input, done);
        taken := done + mem[..];
      }
      assert taken == total + input[..p];
      if p + 32 <= |input| {
        var n;
        v, n := TakeStripes(Round, 8, v, input[p..]);
        Extend(taken, input[p..][..n]);
        taken := taken + input[p..][..n];
        p := p + n;
      }
      assert taken == total + input[..p];
      total := taken;
      KeepRest(input[p..], taken);
      assert total == old(total) + input;
    }

    /** Fewer bytes than a stripe are left. */
    method KeepRest(rest: seq<byte>, ghost taken: seq<byte>)
      requires mem.Length == 32 && |rest| < 32 && memsize == 0 && total == taken
      requires totalLen == Cut64(|taken| + |rest|)
      requires Whole(taken, 32) && v == Absorb(Round, 8, Start(seed), taken)
      modifies `memsize, `total, mem
      ensures Fed() && total == taken + rest
    {
      hide Absorb, Whole, Round, Start, Cut64, Fed;
      if |rest| > 0 {
        CopyIn(rest, 0);
        memsize := |rest|;
      }
      total := taken + rest;
      assert mem[..memsize] == rest;
      Restored(taken);
    }

    lemma Extend(done: seq<byte>, more: seq<byte>)
      requires Whole(done, 32) && Whole(more, 32)
      ensures Whole(done + more, 32)
      ensures Absorb(Round, 8, Start(seed), done + more) == Absorb(Round, 8, Absorb(Round, 8, Start(seed), done), more)
    {
      AbsorbConcat(Round, 8, Start(seed), done, more);
      WholeConcat(done, more, 32);
    }

    /** What is absorbed and what is buffered make up the input. */
    lemma Restored(done: seq<byte>)
      requires mem.Length == 32 && memsize < 32 && total == done + mem[..memsize]
      requires totalLen == Cut64(|total|)
      requires Whole(done, 32) && v == Absorb(Round, 8, Start(seed), done)
      ensures Fed()
    {
      assert total[..|total| - memsize] == done;
    }

    /** Completes the buffered stripe with the first bytes of the input, and takes it. */
    method FillAndTake(input: seq<byte>, ghost done: seq<byte>) returns (p: nat)
      requires mem.Length == 32 && 0 < memsize < 32 <= memsize + |input|
      requires Whole(done, 32) && v == Absorb(Round, 8, Start(seed), done)
      modifies `v, `memsize, mem
      ensures p == 32 - old(memsize) && memsize == 0 && mem[..] == old(mem[..memsize]) + input[..p]
      ensures Whole(done + mem[..], 32) && v == Absorb(Round, 8, Start(seed), done + mem[..])
    {
      hide Absorb, Whole, Round, Start, TakeStripe;
      p := 32 - memsize;
      CopyIn(input[..p], memsize);
      AbsorbStripe(Round, 8, Start(seed), done, mem[..]);
      v := TakeStripe(Round, 8, v, mem[..]);
      memsize := 0;
    }

    method CopyIn(bytes: seq<byte>, at: nat)
      requires at + |bytes| <= mem.Length
      modifies mem
      ensures mem[..] == old(mem[..at]) + bytes + old(mem[at + |bytes|..])
    {
      forall i | 0 <= i < |bytes| { mem[at + i] := bytes[i]; }
    }

    /**
     XXH64_digest. The 64-bit length decides whether a stripe has been taken, so
     the result is the hash unless the length has wrapped around to below 32.
     */
    method Digest() returns (h: nat)
      requires Fed()
      ensures |total| < TWO_64 || Cut64(|total|) >= 32 ==> h == Hash(total, seed)
      ensures TWO_64 <= |total| && Cut64(|total|) < 32 ==>
        h == Avalanche(MixTail(Plus(Plus(v.v2, PRIME64_5), Cut64(|total|)), mem[..memsize]))
    {
      hide Avalanche, Round, MixTail, Plus, Absorb, Converge, Whole, Start;
      WholeStripes(total, |total| - memsize, Start(seed));
      if totalLen >= 32 {
        h := Converge(v);
      } else {
        if |total| < TWO_64 { ThirdLaneIsSeed(); }
        h := Plus(v.v2, PRIME64_5);
      }
      h := Finalize(Plus(h, totalLen), mem[..totalLen % 32]);
    }

    /** The buffered bytes are the length modulo the stripe. */
    lemma BufferedIsRemainder()
      requires Fed()
      ensures memsize == |total| % 32
    {
      WholeStripes(total, |total| - memsize, Start(seed));
    }

    /** Before the first stripe the third lane is still the seed. */
    lemma ThirdLaneIsSeed()
      requires Fed() && |total| < 32
      ensures v.v2 == seed
    {
      BufferedIsRemainder();
      assert total[..|total| - memsize] == [];
      assert v == Start(seed);
    }
  }

  /** Any chunking, any number of digests on the way: each is the hash of what has been fed by then. */
  method HashInChunks(chunks: seq<seq<byte>>, seed: nat) returns (digests: seq<nat>)
    requires |Flatten(chunks)| < TWO_64
    ensures |digests| == |chunks| + 1
    ensures forall i | 0 <= i <= |chunks| :: digests[i] == Hash(Flatten(chunks[..i]), seed)
  {
    hide Hash, Flatten, State.Fed, Cut64;
    var state := new State();
    state.Reset(seed);
    FlattenNone(chunks);
    var h := state.Digest();
    digests := [h];
    var i := 0;
    while i < |chunks|
      invariant 0 <= i <= |chunks| && |digests| == i + 1 && fresh(state) && fresh(state.mem)
      invariant state.Fed() && state.seed == seed && state.total == Flatten(chunks[..i])
      invariant forall j | 0 <= j <= i :: digests[j] == Hash(Flatten(chunks[..j]), seed)
    {
      state.Update(chunks[i]);
      FlattenNext(chunks, i);
      FlattenGrows(chunks, i + 1);
      h := state.Digest();
      digests := digests + [h];
      i := i + 1;
    }
  }
}
