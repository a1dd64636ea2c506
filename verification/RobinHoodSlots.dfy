/**
 The slot array of the Robin Hood hash table, seen as a value.

 A slot carries its distance from the position its key hashes to; -1 marks an
 empty slot.  The last slot is a sentinel: it claims distance 0 but stores
 nothing, so no step below may ever read its value.
 */
module RobinHoodSlots {
  import opened Options

  /** stored is Some exactly while the C++ union holds a constructed value. */
  datatype Entry<+T> = Entry(distance: int, stored: Option<T>)

  const MIN_LOOKUPS: nat := 4

  function EmptyEntry<T>(): Entry<T> { Entry(-1, None) }

  function EndEntry<T>(): Entry<T> { Entry(0, None) }

  /** The hash policy: every key's home slot is a bucket (the first two slots, before any bucket exists). */
  ghost predicate InRange<T(!new)>(index: (T, nat) -> nat)
  {
    forall k, mask: nat :: index(k, mask) <= (if mask == 0 then 1 else mask)
  }

  /** Slot i is empty, or holds a key whose home slot is `distance` slots back. */
  ghost predicate SlotOk<T>(s: seq<Entry<T>>, i: nat, index: (T, nat) -> nat, mask: nat, lookups: nat)
    requires i < |s|
  {
    var e := s[i];
    if e.distance < 0 then e == EmptyEntry()
    else e.stored.Some? && e.distance < lookups && index(e.stored.value, mask) + e.distance == i
  }

  ghost predicate Layout<T>(s: seq<Entry<T>>, index: (T, nat) -> nat, mask: nat, lookups: nat)
  {
    && |s| == mask + lookups + 1
    && s[mask + lookups] == EndEntry()
    && forall i: nat | i < mask + lookups :: SlotOk(s, i, index, mask, lookups)
  }

  /** One link of the global order invariant. */
  ghost predicate StepOk<T>(s: seq<Entry<T>>, i: int)
    requires 0 < i < |s|
  {
    s[i].distance <= s[i - 1].distance + 1
  }

  ghost predicate Ordered<T>(s: seq<Entry<T>>)
  {
    forall i | 0 < i < |s| - 1 :: StepOk(s, i)
  }

  ghost predicate Distinct<T(!new)>(s: seq<Entry<T>>)
  {
    forall i, j | 0 <= i < j < |s| && s[i].stored.Some? && s[j].stored.Some? :: s[i].stored != s[j].stored
  }

  /** What every completed operation leaves behind. */
  ghost predicate Table<T(!new)>(s: seq<Entry<T>>, index: (T, nat) -> nat, mask: nat, lookups: nat)
  {
    && Layout(s, index, mask, lookups)
    && Ordered(s)
    && Distinct(s)
  }

  /** All a rehash relies on: occupied slots hold a value, and no value twice. */
  ghost predicate Loose<T(!new)>(s: seq<Entry<T>>)
  {
    && |s| > 0
    && s[|s| - 1] == EndEntry()
    && (forall i | 0 <= i < |s| - 1 :: s[i].distance >= 0 <==> s[i].stored.Some?)
    && Distinct(s)
  }

  /** The set of stored keys. */
  ghost function Values<T(!new)>(s: seq<Entry<T>>): set<T>
  {
    set i | 0 <= i < |s| && s[i].stored.Some? :: s[i].stored.value
  }

  /** The stored keys in slot order: what iteration visits. */
  ghost function Listing<T>(s: seq<Entry<T>>): seq<T>
  {
    if s == [] then []
    else Listing(s[..|s| - 1]) + (if s[|s| - 1].stored.Some? then [s[|s| - 1].stored.value] else [])
  }

  // ---------------------------------------------------------------- values

  lemma ValuesPut<T(!new)>(s: seq<Entry<T>>, p: nat, d: int, x: T)
    requires p < |s| && s[p].stored.None?
    ensures Values(s[p := Entry(d, Some(x))]) == Values(s) + {x}
  {
    var t := s[p := Entry(d, Some(x))];
    forall y ensures y in Values(t) <==> y in Values(s) + {x} {
      if y in Values(s) {
        var i :| 0 <= i < |s| && s[i].stored.Some? && s[i].stored.value == y;
        assert t[i].stored == Some(y);
      }
      if y == x { assert t[p].stored == Some(x); }
      if y in Values(t) {
        var i :| 0 <= i < |t| && t[i].stored.Some? && t[i].stored.value == y;
        if i != p { assert s[i].stored == Some(y); }
      }
    }
  }

  lemma ValuesTake<T(!new)>(s: seq<Entry<T>>, p: nat)
    requires p < |s| && s[p].stored.Some? && Distinct(s)
    ensures Values(s[p := EmptyEntry()]) == Values(s) - {s[p].stored.value}
    ensures s[p].stored.value in Values(s)
    ensures Distinct(s[p := EmptyEntry()])
  {
    var x := s[p].stored.value;
    var t := s[p := EmptyEntry()];
    forall y ensures y in Values(t) <==> y in Values(s) - {x} {
      if y in Values(s) && y != x {
        var i :| 0 <= i < |s| && s[i].stored.Some? && s[i].stored.value == y;
        assert t[i].stored == Some(y);
      }
      if y in Values(t) {
        var i :| 0 <= i < |t| && t[i].stored.Some? && t[i].stored.value == y;
        assert i != p && s[i].stored == Some(y);
      }
    }
  }

  /** Exchanging the key of an occupied slot exchanges exactly that key. */
  lemma ValuesSwap<T(!new)>(s: seq<Entry<T>>, p: nat, d: int, x: T)
    requires p < |s| && s[p].stored.Some? && Distinct(s) && x !in Values(s)
    ensures var t := s[p := Entry(d, Some(x))];
      && Values(t) + {s[p].stored.value} == Values(s) + {x}
      && s[p].stored.value !in Values(t)
      && |Values(t)| == |Values(s)|
      && Distinct(t)
  {
    var y := s[p].stored.value;
    var u := s[p := EmptyEntry()];
    ValuesTake(s, p);
    ValuesPut(u, p, d, x);
    var t := s[p := Entry(d, Some(x))];
    assert t == u[p := Entry(d, Some(x))];
    DistinctPut(u, p, d, x);
    assert Values(t) == Values(s) - {y} + {x};
  }

  lemma DistinctPut<T(!new)>(s: seq<Entry<T>>, p: nat, d: int, x: T)
    requires p < |s| && Distinct(s) && x !in Values(s)
    ensures Distinct(s[p := Entry(d, Some(x))])
  {
    var t := s[p := Entry(d, Some(x))];
    forall i, j | 0 <= i < j < |t| && t[i].stored.Some? && t[j].stored.Some?
      ensures t[i].stored != t[j].stored
    {
      if i == p { assert s[j].stored.value in Values(s); }
      if j == p { assert s[i].stored.value in Values(s); }
    }
  }

  // ---------------------------------------------------------------- probing

  /** Walking back k slots from slot p lowers the distance by at most k. */
  lemma {:induction false} DistanceBack<T>(s: seq<Entry<T>>, p: nat, k: nat)
    requires Ordered(s) && p < |s| - 1 && k <= p
    ensures s[p - k].distance >= s[p].distance - k
  {
    if k > 0 {
      DistanceBack(s, p, k - 1);
      assert StepOk(s, p - k + 1);
    }
  }

  /** The probe loop stops early, yet never before the slot of a stored key. */
  lemma EarlyStopSafe<T(!new)>(s: seq<Entry<T>>, index: (T, nat) -> nat, mask: nat, lookups: nat,
                               key: T, d: nat)
    requires Table(s, index, mask, lookups)
    requires index(key, mask) + d < |s|
    requires s[index(key, mask) + d].distance < d
    requires forall i | index(key, mask) <= i < index(key, mask) + d :: s[i].stored != Some(key)
    ensures key !in Values(s)
  {
    if key in Values(s) {
      var i :| 0 <= i < |s| && s[i].stored.Some? && s[i].stored.value == key;
      var home := index(key, mask);
      assert SlotOk(s, i, index, mask, lookups);
      DistanceBack(s, i, i - (home + d));
    }
  }

  /** d occupied slots in a row need d distinct keys. */
  lemma {:induction false} RunNeedsKeys<T(!new)>(s: seq<Entry<T>>, a: nat, d: nat)
    requires a + d <= |s| && Distinct(s)
    requires forall i | a <= i < a + d :: s[i].stored.Some?
    ensures d <= |Values(s)|
    decreases d
  {
    if d > 0 {
      var t := s[a := EmptyEntry()];
      ValuesTake(s, a);
      RunNeedsKeys(t, a + 1, d - 1);
    }
  }

  /** A key that got as far as distance d has d occupied slots behind it. */
  lemma ProbeBoundedByCount<T(!new)>(s: seq<Entry<T>>, index: (T, nat) -> nat, mask: nat, lookups: nat,
                                     p: nat, d: nat)
    requires Table(s, index, mask, lookups)
    requires 0 < d <= p < |s| && s[p - 1].distance >= d - 1
    ensures d <= |Values(s)|
  {
    forall i | p - d <= i < p ensures s[i].stored.Some? {
      DistanceBack(s, p - 1, p - 1 - i);
      assert SlotOk(s, i, index, mask, lookups);
    }
    RunNeedsKeys(s, p - d, d);
  }

  // ---------------------------------------------------------------- displacement chain

  /**
   The state in the middle of an insertion: key c has been lifted out and is to
   go into slot p at distance d; the array around it is a proper table.
   */
  ghost predicate Carrying<T(!new)>(s: seq<Entry<T>>, index: (T, nat) -> nat, mask: nat, lookups: nat,
                                    p: nat, c: T, d: nat)
  {
    && Table(s, index, mask, lookups)
    && d < lookups
    && index(c, mask) + d == p
    && mask > 0 && InRange(index)
    && (d > 0 ==> s[p - 1].distance >= d - 1)
    && c !in Values(s)
  }

  /** The slot to go into is before the end sentinel. */
  lemma CarryingFits<T(!new)>(s: seq<Entry<T>>, index: (T, nat) -> nat, mask: nat, lookups: nat, p: nat, c: T, d: nat)
    requires Carrying(s, index, mask, lookups, p, c, d)
    ensures p < mask + lookups == |s| - 1
  {}

  /** Overwriting slot p with a key at distance d, between its two neighbours. */
  lemma PutKeepsOrder<T(!new)>(s: seq<Entry<T>>, index: (T, nat) -> nat, mask: nat, lookups: nat,
                               p: nat, c: T, d: nat)
    requires Carrying(s, index, mask, lookups, p, c, d)
    requires s[p].distance <= d
    ensures var t := s[p := Entry(d, Some(c))]; Layout(t, index, mask, lookups) && Ordered(t)
  {
    var t := s[p := Entry(d, Some(c))];
    forall i: nat | i < mask + lookups ensures SlotOk(t, i, index, mask, lookups) {
      assert SlotOk(s, i, index, mask, lookups);
    }
    forall i | 0 < i < |t| - 1 ensures StepOk(t, i) {
      assert StepOk(s, i);
      assert SlotOk(s, i - 1, index, mask, lookups);
    }
  }

  lemma PlaceCarried<T(!new)>(s: seq<Entry<T>>, index: (T, nat) -> nat, mask: nat, lookups: nat,
                              p: nat, c: T, d: nat)
    requires Carrying(s, index, mask, lookups, p, c, d)
    requires s[p].distance < 0
    ensures p < mask + lookups
    ensures var t := s[p := Entry(d, Some(c))];
      Table(t, index, mask, lookups) && Values(t) == Values(s) + {c} && |Values(t)| == |Values(s)| + 1
  {
    assert SlotOk(s, p, index, mask, lookups);
    PutKeepsOrder(s, index, mask, lookups, p, c, d);
    ValuesPut(s, p, d, c);
    DistinctPut(s, p, d, c);
  }

  /** A resident at least as far from home keeps its slot; the carried key tries the next one. */
  lemma SkipCarried<T(!new)>(s: seq<Entry<T>>, index: (T, nat) -> nat, mask: nat, lookups: nat,
                             p: nat, c: T, d: nat)
    requires Carrying(s, index, mask, lookups, p, c, d)
    requires s[p].distance >= d
    ensures d + 1 <= |Values(s)|
    ensures d + 1 < lookups ==> Carrying(s, index, mask, lookups, p + 1, c, d + 1)
  {
    ProbeBoundedByCount(s, index, mask, lookups, p + 1, d + 1);
  }

  /** Putting the carried key back where the new key had gone makes the new key the pending one. */
  lemma SwapBackKeepsKeys<T(!new)>(s: seq<Entry<T>>, r: nat, key: T, carried: T)
    requires Loose(s) && carried !in Values(s)
    requires r < |s| - 1 && s[r].stored == Some(key)
    ensures var t := s[r := Entry(s[r].distance, Some(carried))];
      && Loose(t) && |Values(t)| == |Values(s)|
      && Values(t) + {key} == Values(s) + {carried} && key !in Values(t)
  {
    hide Values, Distinct;
    ValuesSwap(s, r, s[r].distance, carried);
  }

  /** The richer resident gives up its slot and is carried on from the next one. */
  lemma SwapCarried<T(!new)>(s: seq<Entry<T>>, index: (T, nat) -> nat, mask: nat, lookups: nat,
                             p: nat, c: T, d: nat)
    requires Carrying(s, index, mask, lookups, p, c, d)
    requires 0 <= s[p].distance < d
    ensures p < mask + lookups && s[p].stored.Some?
    ensures var t := s[p := Entry(d, Some(c))];
      var c' := s[p].stored.value;
      && Carrying(t, index, mask, lookups, p + 1, c', s[p].distance + 1)
      && Values(t) + {c'} == Values(s) + {c}
      && |Values(t)| == |Values(s)|
  {
    assert SlotOk(s, p, index, mask, lookups);
    PutKeepsOrder(s, index, mask, lookups, p, c, d);
    ValuesSwap(s, p, d, c);
  }

  // ---------------------------------------------------------------- listing

  lemma {:induction false} ListingConcat<T>(a: seq<Entry<T>>, b: seq<Entry<T>>)
    ensures Listing(a + b) == Listing(a) + Listing(b)
    decreases |b|
  {
    if b == [] {
      assert a + b == a;
    } else {
      ListingConcat(a, b[..|b| - 1]);
      assert (a + b)[..|a + b| - 1] == a + b[..|b| - 1];
    }
  }

  lemma ListingSplit<T>(s: seq<Entry<T>>, k: nat)
    requires k <= |s|
    ensures Listing(s) == Listing(s[..k]) + Listing(s[k..])
  {
    assert s == s[..k] + s[k..];
    ListingConcat(s[..k], s[k..]);
  }

  /** Listing a slice is listing its two parts. */
  lemma ListingSlice<T>(s: seq<Entry<T>>, i: nat, j: nat, k: nat)
    requires i <= j <= k <= |s|
    ensures Listing(s[i..k]) == Listing(s[i..j]) + Listing(s[j..k])
  {
    assert s[i..k] == s[i..j] + s[j..k];
    ListingConcat(s[i..j], s[j..k]);
  }

  /** Empty slots at the end add nothing. */
  lemma ListingTrailing<T>(s: seq<Entry<T>>, k: nat)
    requires k <= |s| && forall i | k <= i < |s| :: s[i].stored.None?
    ensures Listing(s) == Listing(s[..k])
  {
    ListingSplit(s, k);
    ListingOfEmpty(s[k..]);
  }

  /** Empty slots in the middle add nothing to either side. */
  lemma ListingGap<T>(s: seq<Entry<T>>, i: nat, j: nat)
    requires i <= j <= |s| && forall k | i <= k < j :: s[k].stored.None?
    ensures Listing(s[..j]) == Listing(s[..i]) && Listing(s[j..]) == Listing(s[i..])
  {
    hide Listing;
    ListingTrailing(s[..j], i);
    assert s[..j][..i] == s[..i];
    ListingSplit(s[i..], j - i);
    ListingOfEmpty(s[i..][..j - i]);
    assert s[i..][j - i..] == s[j..];
  }

  lemma ListingAround<T>(s: seq<Entry<T>>, i: nat, j: nat)
    requires i <= j <= |s|
    ensures Listing(s) == Listing(s[..i]) + Listing(s[i..j]) + Listing(s[j..])
  {
    ListingSplit(s, j);
    ListingSlice(s, 0, i, j);
    assert s[0..i] == s[..i] && s[0..j] == s[..j];
  }

  lemma ListingSnoc<T>(s: seq<Entry<T>>, i: nat)
    requires i < |s| && s[i].stored.Some?
    ensures Listing(s[..i + 1]) == Listing(s[..i]) + [s[i].stored.value]
  {
    assert s[..i + 1][..i] == s[..i];
  }

  lemma ListingOne<T>(s: seq<Entry<T>>, i: nat)
    requires i < |s|
    ensures Listing(s[i..i + 1]) == if s[i].stored.Some? then [s[i].stored.value] else []
  {
    assert s[i..i + 1] == [s[i]];
  }

  lemma {:induction false} ListingOfEmpty<T>(a: seq<Entry<T>>)
    requires forall i | 0 <= i < |a| :: a[i].stored.None?
    ensures Listing(a) == []
  {
    if a != [] { ListingOfEmpty(a[..|a| - 1]); }
  }

  /** Only the stored values matter to iteration, not their distances. */
  lemma {:induction false} ListingIgnoresDistance<T>(a: seq<Entry<T>>, b: seq<Entry<T>>)
    requires |a| == |b| && forall i | 0 <= i < |a| :: a[i].stored == b[i].stored
    ensures Listing(a) == Listing(b)
  {
    if a != [] { ListingIgnoresDistance(a[..|a| - 1], b[..|b| - 1]); }
  }

  /** Iteration visits exactly the stored keys. */
  lemma {:induction false} ListingCovers<T(!new)>(s: seq<Entry<T>>)
    ensures forall x :: x in Listing(s) <==> x in Values(s)
  {
    if s != [] {
      var a := s[..|s| - 1];
      ListingCovers(a);
      forall x ensures x in Listing(s) <==> x in Values(s) {
        if x in Values(s) {
          var i :| 0 <= i < |s| && s[i].stored.Some? && s[i].stored.value == x;
          if i < |a| { assert a[i].stored == Some(x); }
        }
        if x in Values(a) {
          var i :| 0 <= i < |a| && a[i].stored.Some? && a[i].stored.value == x;
          assert s[i].stored == Some(x);
        }
      }
    }
  }

  ghost predicate NoDuplicates<T(!new)>(q: seq<T>)
  {
    forall i, j | 0 <= i < j < |q| :: q[i] != q[j]
  }

  /** ... and each of them once. */
  lemma {:induction false} ListingHasNoDuplicates<T(!new)>(s: seq<Entry<T>>)
    requires Distinct(s)
    ensures NoDuplicates(Listing(s))
    ensures |Listing(s)| == |Values(s)|
  {
    if s != [] {
      var a, e := s[..|s| - 1], s[|s| - 1];
      assert Distinct(a);
      ListingHasNoDuplicates(a);
      ListingCovers(a);
      if e.stored.Some? {
        assert e.stored.value !in Values(a) by {
          forall i | 0 <= i < |a| && a[i].stored.Some? ensures a[i].stored.value != e.stored.value {
            assert s[i].stored != s[|s| - 1].stored;
          }
        }
        var t := a + [EmptyEntry()];
        assert t == s[|s| - 1 := EmptyEntry()];
        ValuesTake(s, |s| - 1);
        ValuesSameUpToEmpty(a);
        assert Listing(s) == Listing(a) + [e.stored.value];
      } else {
        assert Values(s) == Values(a) by {
          ListingCovers(s);
          assert Listing(s) == Listing(a);
        }
      }
    }
  }

  lemma ValuesSameUpToEmpty<T(!new)>(a: seq<Entry<T>>)
    ensures Values(a + [EmptyEntry()]) == Values(a)
  {
    var t := a + [EmptyEntry()];
    ListingCovers(t);
    ListingCovers(a);
    assert t[..|t| - 1] == a;
  }

  /** The converse: a duplicate-free listing means no key sits in two slots. */
  lemma {:induction false} DistinctFromListing<T(!new)>(s: seq<Entry<T>>)
    requires NoDuplicates(Listing(s))
    ensures Distinct(s)
  {
    if s != [] {
      var a, e := s[..|s| - 1], s[|s| - 1];
      assert forall i | 0 <= i < |Listing(a)| :: Listing(s)[i] == Listing(a)[i];
      DistinctFromListing(a);
      ListingCovers(a);
      forall i, j | 0 <= i < j < |s| && s[i].stored.Some? && s[j].stored.Some?
        ensures s[i].stored != s[j].stored
      {
        assert a[i] == s[i];
        if j < |a| {
          assert a[j] == s[j];
        } else {
          assert a[i].stored.value in Values(a);
          var k :| 0 <= k < |Listing(a)| && Listing(a)[k] == a[i].stored.value;
          assert Listing(s)[k] == a[i].stored.value;
          assert Listing(s)[|Listing(a)|] == e.stored.value;
        }
      }
    }
  }

  // ---------------------------------------------------------------- erasure

  /** Dropping the middle of the listing drops exactly those keys. */
  lemma ErasedListing<T(!new)>(s: seq<Entry<T>>, t: seq<Entry<T>>, pre: seq<T>, mid: seq<T>, post: seq<T>)
    requires Distinct(s) && Listing(s) == pre + mid + post && Listing(t) == pre + post
    ensures Distinct(t)
    ensures Values(t) == Values(s) - (set x | x in mid)
    ensures |Values(t)| == |Values(s)| - |mid|
  {
    hide Listing, Values, Distinct;
    ListingHasNoDuplicates(s);
    ListingCovers(s);
    WithoutMiddle(pre, mid, post);
    DistinctFromListing(t);
    ListingHasNoDuplicates(t);
    ListingCovers(t);
  }

  /** A duplicate-free sequence without its middle part. */
  lemma WithoutMiddle<T(!new)>(pre: seq<T>, mid: seq<T>, post: seq<T>)
    requires NoDuplicates(pre + mid + post)
    ensures NoDuplicates(pre + post)
    ensures forall x :: x in pre + post <==> x in pre + mid + post && x !in mid
  {
    var q := pre + mid + post;
    assert forall i | 0 <= i < |pre| :: q[i] == pre[i];
    assert forall i | 0 <= i < |mid| :: q[|pre| + i] == mid[i];
    assert forall i | 0 <= i < |post| :: q[|pre| + |mid| + i] == post[i];
    forall i, j | 0 <= i < j < |pre + post| ensures (pre + post)[i] != (pre + post)[j] {
      assert (pre + post)[i] == q[if i < |pre| then i else i + |mid|];
      assert (pre + post)[j] == q[if j < |pre| then j else j + |mid|];
    }
  }

  /** s with slot e erased and the run after it, up to slot c, moved back by one. */
  ghost predicate ShiftedBack<T>(s: seq<Entry<T>>, t: seq<Entry<T>>, e: nat, c: nat)
  {
    && |t| == |s| && e <= c < |s|
    && (forall i | 0 <= i < e :: t[i] == s[i])
    && (forall i | e <= i < c :: t[i] == Entry(s[i + 1].distance - 1, s[i + 1].stored))
    && t[c] == EmptyEntry()
    && (forall i | c < i < |s| :: t[i] == s[i])
    && (forall i | e < i <= c :: s[i].distance > 0)
  }

  lemma ShiftedBackStep<T>(s: seq<Entry<T>>, t: seq<Entry<T>>, u: seq<Entry<T>>, e: nat, c: nat)
    requires ShiftedBack(s, t, e, c) && c + 1 < |s| && s[c + 1].distance > 0
    requires u == t[c := Entry(t[c + 1].distance - 1, t[c + 1].stored)][c + 1 := EmptyEntry()]
    ensures ShiftedBack(s, u, e, c + 1)
  {}

  lemma ShiftedBackListing<T>(s: seq<Entry<T>>, t: seq<Entry<T>>, e: nat, c: nat)
    requires ShiftedBack(s, t, e, c)
    ensures Listing(t[..e]) == Listing(s[..e]) && Listing(t[e..]) == Listing(s[e + 1..])
  {
    hide Listing;
    assert t[..e] == s[..e];
    ListingSlice(t, e, c, |t|);
    ListingSlice(s, e + 1, c + 1, |s|);
    ListingIgnoresDistance(t[e..c], s[e + 1..c + 1]);
    ListingSkipsEmpty(t, c);
    assert t[c + 1..|t|] == s[c + 1..|s|];
    assert t[e..|t|] == t[e..] && s[e + 1..|s|] == s[e + 1..];
  }

  lemma ListingSkipsEmpty<T>(s: seq<Entry<T>>, i: nat)
    requires i < |s| && s[i].stored.None?
    ensures Listing(s[i..|s|]) == Listing(s[i + 1..|s|])
  {
    ListingSlice(s, i, i + 1, |s|);
    ListingOne(s, i);
  }

  lemma ShiftedBackOrder<T(!new)>(s: seq<Entry<T>>, t: seq<Entry<T>>, e: nat, c: nat,
                                  index: (T, nat) -> nat, mask: nat, lookups: nat)
    requires Layout(s, index, mask, lookups) && Ordered(s)
    requires ShiftedBack(s, t, e, c) && c < mask + lookups
    requires s[c + 1].distance <= 0
    ensures Layout(t, index, mask, lookups) && Ordered(t)
  {
    forall i: nat | i < mask + lookups ensures SlotOk(t, i, index, mask, lookups) {
      assert SlotOk(s, i, index, mask, lookups);
      if e <= i < c { assert SlotOk(s, i + 1, index, mask, lookups); }
    }
    forall i | 0 < i < |t| - 1 ensures StepOk(t, i) {
      assert StepOk(s, i);
      assert SlotOk(t, i - 1, index, mask, lookups);
      if e <= i < c { assert StepOk(s, i + 1); }
    }
  }

  /** The backward shift restores every table invariant and loses only the erased key. */
  lemma BackwardShift<T(!new)>(s: seq<Entry<T>>, t: seq<Entry<T>>, e: nat, c: nat,
                               index: (T, nat) -> nat, mask: nat, lookups: nat)
    requires Table(s, index, mask, lookups)
    requires ShiftedBack(s, t, e, c) && c < mask + lookups
    requires s[e].stored.Some?
    requires s[c + 1].distance <= 0
    ensures Table(t, index, mask, lookups)
    ensures Values(t) == Values(s) - {s[e].stored.value} && |Values(t)| == |Values(s)| - 1
    ensures Listing(t[..e]) == Listing(s[..e]) && Listing(t[e..]) == Listing(s[e + 1..])
  {
    ShiftedBackOrder(s, t, e, c, index, mask, lookups);
    ShiftedBackListing(s, t, e, c);
    var x := s[e].stored.value;
    assert Listing(s) == Listing(s[..e]) + [x] + Listing(s[e + 1..])
      by { ListingAround(s, e, e + 1); ListingOne(s, e); }
    ListingSplit(t, e);
    ErasedListing(s, t, Listing(s[..e]), [x], Listing(s[e + 1..]));
    assert (set y | y in [x]) == {x};
  }

  /**
   Range erasure in progress: slots [b, e) of s are gone, slots [e, it) have been
   moved down, the first of them into slot r, and the next move is by `move` slots.
   */
  ghost predicate Compacting<T(!new)>(s: seq<Entry<T>>, t: seq<Entry<T>>, b: nat, e: nat, r: nat, it: nat, move: int,
                                      index: (T, nat) -> nat, mask: nat, lookups: nat)
  {
    && |t| == |s| == mask + lookups + 1 && b < e <= it < |s| && b <= r <= e
    && t[..b] == s[..b] && t[it..] == s[it..]
    && (forall i | b <= i < r :: t[i] == EmptyEntry())
    && (r < it && e < it ==> t[r].stored.Some?)
    && (forall i: nat | i < it :: SlotOk(t, i, index, mask, lookups))
    && (forall i | 0 < i < it :: StepOk(t, i))
    && Listing(t[..it]) == Listing(s[..b]) + Listing(s[e..it])
    && (e == it ==> r == it - (if s[it].distance > 0 then move else 0))
    && (s[it].distance > 0 ==> NextMoveFits(s, t, r, it, move))
  }

  /** The target of the next move is free, and the run before it is tall enough. */
  ghost predicate NextMoveFits<T>(s: seq<Entry<T>>, t: seq<Entry<T>>, r: nat, it: nat, move: int)
    requires it < |s| == |t|
  {
    && 0 < move <= s[it].distance && move <= it - r
    && (forall i | it - move <= i < it :: t[i] == EmptyEntry())
    && (it - move > 0 ==> s[it].distance - move <= t[it - move - 1].distance + 1)
  }

  lemma CompactingStarts<T(!new)>(s: seq<Entry<T>>, t: seq<Entry<T>>, b: nat, e: nat, move: int,
                                  index: (T, nat) -> nat, mask: nat, lookups: nat)
    requires Table(s, index, mask, lookups)
    requires b < e < mask + lookups && |t| == |s| && s[e].distance >= 0
    requires t[..b] == s[..b] && t[e..] == s[e..] && forall i | b <= i < e :: t[i] == EmptyEntry()
    requires move == (if s[e].distance < e - b then s[e].distance else e - b)
    ensures Compacting(s, t, b, e, e - move, e, move, index, mask, lookups)
  {
    hide Listing, Distinct;
    forall i: nat | i < e ensures SlotOk(t, i, index, mask, lookups) {
      assert SlotOk(s, i, index, mask, lookups);
      if i < b { assert t[i] == t[..b][i]; }
    }
    forall i | 0 < i < e ensures StepOk(t, i) {
      assert StepOk(s, i);
      assert SlotOk(t, i - 1, index, mask, lookups);
      if i < b { assert t[i] == t[..b][i] && t[i - 1] == t[..b][i - 1]; }
    }
    ListingOfPrefix(s, t, b, e);
    if s[e].distance > 0 && e - move > 0 {
      assert SlotOk(t, e - move - 1, index, mask, lookups);
      if move == e - b {
        DistanceBack(s, e, e - b + 1);
        assert t[b - 1] == t[..b][b - 1];
      }
    }
  }

  lemma ListingOfPrefix<T>(s: seq<Entry<T>>, t: seq<Entry<T>>, b: nat, e: nat)
    requires b <= e <= |s| == |t| && t[..b] == s[..b] && forall i | b <= i < e :: t[i] == EmptyEntry()
    ensures Listing(t[..e]) == Listing(s[..b]) + Listing(s[e..e])
  {
    assert t[..e] == t[..b] + t[b..e];
    ListingConcat(t[..b], t[b..e]);
    ListingOfEmpty(t[b..e]);
    assert s[e..e] == [];
  }

  /** One element of the tail moves down, the freed slot is emptied, the move distance shrinks. */
  lemma CompactingStep<T(!new)>(s: seq<Entry<T>>, t: seq<Entry<T>>, b: nat, e: nat, r: nat, it: nat, move: int,
                                index: (T, nat) -> nat, mask: nat, lookups: nat, u: seq<Entry<T>>, move': int)
    requires Table(s, index, mask, lookups)
    requires Compacting(s, t, b, e, r, it, move, index, mask, lookups) && s[it].distance > 0
    requires it < mask + lookups
    requires u == t[it - move := Entry(s[it].distance - move, s[it].stored)][it := EmptyEntry()]
    requires move' == (if s[it + 1].distance < move then s[it + 1].distance else move)
    ensures Compacting(s, u, b, e, r, it + 1, move', index, mask, lookups)
  {
    var g := it - move;
    assert SlotOk(s, it, index, mask, lookups);
    assert t[it] == t[it..][0] == s[it..][0] == s[it];
    CompactingKeepsSlots(s, t, b, e, r, it, move, index, mask, lookups, u);
    CompactingListing(s, t, b, e, r, it, move, u);
    assert u[..b] == s[..b] by {
      assert forall i | 0 <= i < b :: u[i] == t[..b][i];
    }
    assert u[it + 1..] == s[it + 1..] by {
      assert forall i | it < i < |s| :: u[i] == t[it..][i - it];
    }
    if s[it + 1].distance > 0 {
      assert it + 1 < mask + lookups;
      assert StepOk(s, it + 1);
      assert SlotOk(u, it - move', index, mask, lookups);
      assert u[it - move'] == if move' == move then u[g] else EmptyEntry();
    }
  }

  /** What the next move reads and where it goes. */
  lemma CompactingMove<T(!new)>(s: seq<Entry<T>>, t: seq<Entry<T>>, b: nat, e: nat, r: nat, it: nat, move: int,
                                index: (T, nat) -> nat, mask: nat, lookups: nat)
    requires Table(s, index, mask, lookups)
    requires Compacting(s, t, b, e, r, it, move, index, mask, lookups) && s[it].distance > 0
    ensures 0 < move <= it < mask + lookups
    ensures t[it] == s[it] && t[it + 1] == s[it + 1] && s[it].stored.Some?
  {
    assert t[it] == t[it..][0] == s[it..][0] == s[it];
    assert SlotOk(s, it, index, mask, lookups);
    assert t[it + 1] == t[it..][1] == s[it..][1] == s[it + 1];
  }

  lemma CompactingKeepsSlots<T(!new)>(s: seq<Entry<T>>, t: seq<Entry<T>>, b: nat, e: nat, r: nat, it: nat, move: int,
                                      index: (T, nat) -> nat, mask: nat, lookups: nat, u: seq<Entry<T>>)
    requires Compacting(s, t, b, e, r, it, move, index, mask, lookups) && s[it].distance > 0
    requires it < mask + lookups && SlotOk(s, it, index, mask, lookups)
    requires u == t[it - move := Entry(s[it].distance - move, s[it].stored)][it := EmptyEntry()]
    ensures forall i: nat | i < it + 1 :: SlotOk(u, i, index, mask, lookups)
    ensures forall i | 0 < i < it + 1 :: StepOk(u, i)
  {
    forall i: nat | i < it + 1 ensures SlotOk(u, i, index, mask, lookups) {
      if i < it { assert SlotOk(t, i, index, mask, lookups); }
    }
    forall i | 0 < i < it + 1 ensures StepOk(u, i) {
      assert SlotOk(u, i - 1, index, mask, lookups);
      if i < it { assert StepOk(t, i); }
    }
  }

  lemma CompactingListing<T(!new)>(s: seq<Entry<T>>, t: seq<Entry<T>>, b: nat, e: nat, r: nat, it: nat, move: int,
                                   u: seq<Entry<T>>)
    requires |t| == |s| && b < e <= it < |s| - 1 && 0 < move <= it && s[it].stored.Some?
    requires forall i | it - move <= i < it :: t[i] == EmptyEntry()
    requires Listing(t[..it]) == Listing(s[..b]) + Listing(s[e..it])
    requires u == t[it - move := Entry(s[it].distance - move, s[it].stored)][it := EmptyEntry()]
    ensures Listing(u[..it + 1]) == Listing(s[..b]) + Listing(s[e..it + 1])
  {
    hide Listing;
    var g := it - move;
    assert t[..it][..g] == t[..g] == u[..g];
    ListingTrailing(t[..it], g);
    assert u[..it + 1][..g + 1] == u[..g + 1];
    ListingTrailing(u[..it + 1], g + 1);
    ListingSnoc(u, g);
    ListingSlice(s, e, it, it + 1);
    ListingOne(s, it);
  }

  /** Where the compaction stops, the array is a table again. */
  lemma CompactingEnds<T(!new)>(s: seq<Entry<T>>, t: seq<Entry<T>>, b: nat, e: nat, r: nat, it: nat, move: int,
                                index: (T, nat) -> nat, mask: nat, lookups: nat)
    requires Table(s, index, mask, lookups)
    requires Compacting(s, t, b, e, r, it, move, index, mask, lookups) && s[it].distance <= 0
    requires e < mask + lookups && s[e].stored.Some?
    ensures Table(t, index, mask, lookups)
    ensures Values(t) == Values(s) - Values(s[b..e])
    ensures |Values(t)| == |Values(s)| - |Listing(s[b..e])|
    ensures Listing(t[..r]) == Listing(s[..b]) && Listing(t[r..]) == Listing(s[e..])
    ensures t[r].stored.Some?
  {
    assert forall i | it <= i < |s| :: t[i] == t[it..][i - it] && s[i] == s[it..][i - it];
    forall i: nat | i < mask + lookups ensures SlotOk(t, i, index, mask, lookups) {
      assert SlotOk(s, i, index, mask, lookups);
    }
    forall i | 0 < i < |t| - 1 ensures StepOk(t, i) {
      assert StepOk(s, i);
      assert SlotOk(t, i - 1, index, mask, lookups);
    }
    CompactedListing(s, t, b, e, r, it);
    ErasedListing(s, t, Listing(s[..b]), Listing(s[b..e]), Listing(s[e..]));
    ListingCovers(s[b..e]);
    assert (set x | x in Listing(s[b..e])) == Values(s[b..e]);
  }

  lemma CompactedWhole<T(!new)>(s: seq<Entry<T>>, t: seq<Entry<T>>, b: nat, e: nat, it: nat)
    requires |t| == |s| && b < e <= it < |s| && t[it..] == s[it..]
    requires Listing(t[..it]) == Listing(s[..b]) + Listing(s[e..it])
    ensures Listing(t) == Listing(s[..b]) + Listing(s[e..])
  {
    hide Listing;
    ListingSplit(t, it);
    ListingSplit(s[e..], it - e);
    assert s[e..][..it - e] == s[e..it] && s[e..][it - e..] == s[it..];
  }

  lemma CompactedListing<T(!new)>(s: seq<Entry<T>>, t: seq<Entry<T>>, b: nat, e: nat, r: nat, it: nat)
    requires |t| == |s| && b < e <= it < |s| && b <= r <= e
    requires t[..b] == s[..b] && t[it..] == s[it..]
    requires forall i | b <= i < r :: t[i] == EmptyEntry()
    requires Listing(t[..it]) == Listing(s[..b]) + Listing(s[e..it])
    ensures Listing(t) == Listing(s[..b]) + Listing(s[e..])
    ensures Listing(s) == Listing(s[..b]) + Listing(s[b..e]) + Listing(s[e..])
    ensures Listing(t[..r]) == Listing(s[..b]) && Listing(t[r..]) == Listing(s[e..])
  {
    CompactedWhole(s, t, b, e, it);
    ListingAround(s, b, e);
    assert Listing(t[..r]) == Listing(s[..b]) by {
      ListingTrailing(t[..r], b);
      assert t[..r][..b] == t[..b];
    }
    ListingSplit(t, r);
    CancelPrefix(Listing(s[..b]), Listing(t[r..]), Listing(s[e..]));
  }

  lemma CancelPrefix<T>(a: seq<T>, x: seq<T>, y: seq<T>)
    requires a + x == a + y
    ensures x == y
  {
    assert (a + x)[|a|..] == x;
    assert (a + y)[|a|..] == y;
  }
}
