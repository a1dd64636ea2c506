/**
 What XXH32 and XXH64 share: four lanes, each advanced by one word of every
 stripe, and input taken a whole stripe at a time.
 */
module LaneHash {
  import opened Bytes

  datatype Lanes<L> = Lanes(v0: L, v1: L, v2: L, v3: L)

  /** A little-endian word. */
  function ReadLE(data: seq<byte>): nat
  {
    if data == [] then 0 else data[0] as nat + 0x100 * ReadLE(data[1..])
  }

  /** One stripe of four words, each of the given number of bytes. */
  function TakeStripe<L>(round: (L, nat) -> L, word: nat, v: Lanes<L>, stripe: seq<byte>): Lanes<L>
    requires |stripe| == 4 * word
  {
    Lanes(
      round(v.v0, ReadLE(stripe[..word])),
      round(v.v1, ReadLE(stripe[word..2 * word])),
      round(v.v2, ReadLE(stripe[2 * word..3 * word])),
      round(v.v3, ReadLE(stripe[3 * word..])))
  }

  /** The whole stripes of data, in order; what is left over is not looked at. */
  function Absorb<L>(round: (L, nat) -> L, word: nat, v: Lanes<L>, data: seq<byte>): Lanes<L>
    requires word > 0
    decreases |data|
  {
    if |data| < 4 * word then v
    else Absorb(round, word, TakeStripe(round, word, v, data[..4 * word]), data[4 * word..])
  }

  /** data consists of whole stripes. */
  predicate Whole(data: seq<byte>, stripe: nat)
    requires stripe > 0
    decreases |data|
  {
    data == [] || (|data| >= stripe && Whole(data[stripe..], stripe))
  }

  lemma {:induction false} WholeLength(data: seq<byte>, stripe: nat) returns (k: nat)
    requires stripe > 0 && Whole(data, stripe)
    ensures |data| == k * stripe
    decreases |data|
  {
    if data == [] {
      k := 0;
    } else {
      k := WholeLength(data[stripe..], stripe);
      assert (k + 1) * stripe == k * stripe + stripe;
      k := k + 1;
    }
  }

  lemma {:induction false} WholeConcat(a: seq<byte>, b: seq<byte>, stripe: nat)
    requires stripe > 0 && Whole(a, stripe) && Whole(b, stripe)
    ensures Whole(a + b, stripe)
    decreases |a|
  {
    if a == [] {
      assert a + b == b;
    } else {
      WholeConcat(a[stripe..], b, stripe);
      assert (a + b)[stripe..] == a[stripe..] + b;
    }
  }

  /** Absorbing whole stripes first and the rest afterwards is absorbing it all. */
  lemma {:induction false} AbsorbConcat<L>(round: (L, nat) -> L, word: nat, v: Lanes<L>, a: seq<byte>, b: seq<byte>)
    requires word > 0 && Whole(a, 4 * word)
    ensures Absorb(round, word, v, a + b) == Absorb(round, word, Absorb(round, word, v, a), b)
    decreases |a|
  {
    if a == [] {
      assert a + b == b;
    } else {
      var n := 4 * word;
      assert (a + b)[..n] == a[..n] && (a + b)[n..] == a[n..] + b;
      AbsorbConcat(round, word, TakeStripe(round, word, v, a[..n]), a[n..], b);
    }
  }

  lemma AbsorbLess<L>(round: (L, nat) -> L, word: nat, v: Lanes<L>, rest: seq<byte>)
    requires word > 0 && |rest| < 4 * word
    ensures Absorb(round, word, v, rest) == v
  {}

  /** One more whole stripe. */
  lemma AbsorbStripe<L>(round: (L, nat) -> L, word: nat, v: Lanes<L>, a: seq<byte>, stripe: seq<byte>)
    requires word > 0 && Whole(a, 4 * word) && |stripe| == 4 * word
    ensures Whole(a + stripe, 4 * word)
    ensures Absorb(round, word, v, a + stripe) == TakeStripe(round, word, Absorb(round, word, v, a), stripe)
  {
    AbsorbConcat(round, word, v, a, stripe);
    assert stripe[..4 * word] == stripe && stripe[4 * word..] == [];
    assert Whole(stripe, 4 * word);
    WholeConcat(a, stripe, 4 * word);
  }

  /** The loop over whole stripes: stops at the first byte that starts no whole stripe. */
  method TakeStripes<L>(round: (L, nat) -> L, word: nat, v: Lanes<L>, data: seq<byte>) returns (r: Lanes<L>, p: nat)
    requires word > 0
    ensures p <= |data| < p + 4 * word
    ensures Whole(data[..p], 4 * word) && r == Absorb(round, word, v, data[..p])
  {
    hide TakeStripe, Whole, Absorb;
    r, p := v, 0;
    NothingAbsorbed(round, word, v, data[..0]);
    var stripe := 4 * word;
    while p + stripe <= |data|
      invariant p <= |data| && Whole(data[..p], stripe)
      invariant r == Absorb(round, word, v, data[..p])
    {
      AbsorbStripe(round, word, v, data[..p], data[p..p + stripe]);
      assert data[..p + stripe] == data[..p] + data[p..p + stripe];
      r := TakeStripe(round, word, r, data[p..p + stripe]);
      p := p + stripe;
    }
  }

  lemma NothingAbsorbed<L>(round: (L, nat) -> L, word: nat, v: Lanes<L>, none: seq<byte>)
    requires word > 0 && none == []
    ensures Whole(none, 4 * word) && Absorb(round, word, v, none) == v
  {}
}
