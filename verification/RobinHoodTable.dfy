/**
 The Robin Hood hash set itself: the slot array updated in place by probing,
 displacement, backward shifting and rehashing.

 The hash function and the fibonacci index are one parameter, `index`: any
 function that maps a key and the current bucket mask to a bucket.
 The load factor is the default one half.
 */
module RobinHoodTable {
  import opened Options
  import opened RobinHoodSlots
  import opened Words
  import opened PowersOfTwo

  class HashSet<T(!new, ==)> {
    const index: (T, nat) -> nat
    var entries: array<Entry<T>>
    var numSlotsMinusOne: nat
    var maxLookups: nat
    var numElements: nat

    ghost predicate Sized()
      reads this, entries
    {
      && InRange(index)
      && entries.Length == numSlotsMinusOne + maxLookups + 1
      && IsPow2(numSlotsMinusOne + 1)
      && maxLookups == (if numSlotsMinusOne == 0 then MIN_LOOKUPS - 1 else Max(MIN_LOOKUPS, Log2(numSlotsMinusOne + 1)))
      && numElements == |Values(entries[..])|
    }

    /** The state between public operations. */
    ghost predicate Valid()
      reads this, entries
    {
      && Sized()
      && Table(entries[..], index, numSlotsMinusOne, maxLookups)
      && (numSlotsMinusOne == 0 ==> numElements == 0)
    }

    /** The state a rehash may start from: some slot may hold a key at a wrong distance. */
    ghost predicate Reloadable()
      reads this, entries
    {
      Sized() && Loose(entries[..])
    }

    ghost function Slots(): seq<Entry<T>>
      reads this, entries
    {
      entries[..]
    }

    /** The abstract set. */
    ghost function Contents(): set<T>
      reads this, entries
    {
      Values(entries[..])
    }

    ghost function Level(): nat
      reads this
    {
      Log2(numSlotsMinusOne + 1)
    }

    /** How many more times an insertion at this size could make the table grow. */
    ghost function GrowthsLeft(): nat
      reads this
    {
      if Level() <= numElements then numElements + 1 - Level() else 0
    }

    constructor (index: (T, nat) -> nat)
      requires InRange(index)
      ensures Valid() && Contents() == {} && fresh(entries)
      ensures this.index == index
    {
      this.index := index;
      var a := new Entry<T>[MIN_LOOKUPS](i => if i == 3 then EndEntry() else EmptyEntry());
      entries := a;
      numSlotsMinusOne, maxLookups, numElements := 0, MIN_LOOKUPS - 1, 0;
      new;
      assert entries[..] == [EmptyEntry(), EmptyEntry(), EmptyEntry(), EndEntry()];
      assert Log2(1) == 0 && Pow2(0) == 1;
      EmptyTableOk(entries[..], index, 0, 3);
    }

    /** The position one past the last usable slot. */
    function End(): nat
      requires entries.Length > 0
      reads this, entries
    {
      entries.Length - 1
    }

    function BucketCount(): nat
      reads this
    {
      if numSlotsMinusOne != 0 then numSlotsMinusOne + 1 else 0
    }

    method Find(key: T) returns (it: nat)
      requires Valid()
      ensures key in Contents() ==> it < End() && entries[it].stored == Some(key)
      ensures key !in Contents() ==> it == End()
    {
      hide Values, Ordered, Distinct;
      it := index(key, numSlotsMinusOne);
      var distance := 0;
      while entries[it].distance >= distance
        invariant it == index(key, numSlotsMinusOne) + distance && it < entries.Length
        invariant distance <= maxLookups
        invariant forall i | index(key, numSlotsMinusOne) <= i < it :: entries[i].stored != Some(key)
        decreases entries.Length - it
      {
        assert it != End();
        assert SlotOk(entries[..], it, index, numSlotsMinusOne, maxLookups);
        if key == entries[it].stored.value {
          StoredIsValue(entries[..], it);
          return;
        }
        distance, it := distance + 1, it + 1;
      }
      EarlyStopSafe(entries[..], index, numSlotsMinusOne, maxLookups, key, distance);
      it := End();
    }

    /** Inserts the key unless present; reports the slot that now holds it and whether it is new. */
    method Emplace(key: T) returns (it: nat, inserted: bool)
      requires Valid()
      modifies this, entries
      ensures Valid() && Contents() == old(Contents()) + {key}
      ensures inserted <==> key !in old(Contents())
      ensures it < End() && entries[it].stored == Some(key)
      ensures numElements == old(numElements) + (if inserted then 1 else 0)
      ensures Level() >= old(Level())
      ensures entries == old(entries) || fresh(entries)
      ensures !inserted ==> entries == old(entries) && entries[..] == old(entries[..])
      decreases GrowthsLeft(), 1
    {
      hide Values, Ordered, Distinct, Listing;
      it := index(key, numSlotsMinusOne);
      var distance := 0;
      while entries[it].distance >= distance
        invariant it == index(key, numSlotsMinusOne) + distance && it < entries.Length
        invariant distance <= maxLookups
        invariant distance > 0 ==> entries[it - 1].distance >= distance - 1
        invariant forall i | index(key, numSlotsMinusOne) <= i < it :: entries[i].stored != Some(key)
        decreases entries.Length - it
      {
        assert it != End();
        assert SlotOk(entries[..], it, index, numSlotsMinusOne, maxLookups);
        if key == entries[it].stored.value {
          StoredIsValue(entries[..], it);
          inserted := false;
          return;
        }
        it, distance := it + 1, distance + 1;
      }
      EarlyStopSafe(entries[..], index, numSlotsMinusOne, maxLookups, key, distance);
      it := EmplaceNewKey(distance, it, key);
      inserted := true;
    }

    /** Inserts a key known to be absent at the point where its probe stopped. */
    method EmplaceNewKey(distance: nat, current: nat, key: T) returns (result: nat)
      requires Valid() && key !in Contents()
      requires current == index(key, numSlotsMinusOne) + distance && current < entries.Length
      requires distance <= maxLookups && entries[current].distance < distance
      requires distance > 0 ==> entries[current - 1].distance >= distance - 1
      modifies this, entries
      ensures Valid() && Contents() == old(Contents()) + {key}
      ensures result < End() && entries[result].stored == Some(key)
      ensures numElements == old(numElements) + 1
      ensures Level() >= old(Level())
      ensures entries == old(entries) || fresh(entries)
      decreases GrowthsLeft(), 0
    {
      hide Values, RobinHoodSlots.Table, InRange;
      var isNew;
      if numSlotsMinusOne == 0 || distance == maxLookups || 2 * (numElements + 1) > numSlotsMinusOne + 1 {
        GrowthIsDue(distance, current);
        Grow();
        result, isNew := Emplace(key);
      } else if entries[current].distance < 0 {
        Place(current, distance, key);
        result := current;
      } else {
        var placed, toInsert := Displace(current, distance, key);
        result := current;
        if !placed {
          Grow();
          result, isNew := Emplace(toInsert);
        }
      }
    }

    /**
     The displacement chain: the new key takes the slot, every displaced key moves on
     to the next slot whose resident is closer to home.  When the carried key gets too
     far from its home the new key is taken out again and handed back.
     */
    method Displace(current: nat, distance: nat, key: T) returns (placed: bool, toInsert: T)
      requires Valid() && Carrying(entries[..], index, numSlotsMinusOne, maxLookups, current, key, distance)
      requires 0 <= entries[current].distance < distance
      modifies this`numElements, entries
      ensures current < End()
      ensures placed ==> Valid() && numElements == old(numElements) + 1
      ensures placed ==> Contents() == old(Contents()) + {key} && entries[current].stored == Some(key)
      ensures !placed ==> Reloadable() && numElements == old(numElements) && Level() <= numElements
      ensures !placed ==> toInsert == key && Contents() == old(Contents())
    {
      hide Values, RobinHoodSlots.Table, InRange;
      CarryingFits(entries[..], index, numSlotsMinusOne, maxLookups, current, key, distance);
      var d;
      d, toInsert := SwapOn(current, distance, key);
      var p := current + 1;
      CarryingFits(entries[..], index, numSlotsMinusOne, maxLookups, p, toInsert, d);
      while true
        invariant d > 0 && Sized() && Carrying(entries[..], index, numSlotsMinusOne, maxLookups, p, toInsert, d)
        invariant Contents() + {toInsert} == old(Contents()) + {key}
        invariant current < p < entries.Length - 1 && entries[current].stored == Some(key)
        invariant numElements == old(numElements)
        decreases entries.Length - p
      {
        if entries[p].distance < 0 {
          Place(p, d, toInsert);
          return true, toInsert;
        } else if entries[p].distance < d {
          d, toInsert := SwapOn(p, d, toInsert);
        } else {
          SkipCarried(entries[..], index, numSlotsMinusOne, maxLookups, p, toInsert, d);
          d := d + 1;
          if d == maxLookups {
            TableIsLoose(entries[..], index, numSlotsMinusOne, maxLookups);
            toInsert := SwapBack(current, toInsert, key);
            return false, toInsert;
          }
        }
        p := p + 1;
        CarryingFits(entries[..], index, numSlotsMinusOne, maxLookups, p, toInsert, d);
      }
    }

    /** Exchanges the carried key with the resident of slot p and moves on to the next slot. */
    method SwapOn(p: nat, d: nat, x: T) returns (d': nat, x': T)
      requires Sized() && Carrying(entries[..], index, numSlotsMinusOne, maxLookups, p, x, d)
      requires 0 <= entries[p].distance < d
      modifies entries
      ensures d' > 0 && Sized() && Carrying(entries[..], index, numSlotsMinusOne, maxLookups, p + 1, x', d')
      ensures Contents() + {x'} == old(Contents()) + {x}
      ensures entries[..] == old(entries[..][p := Entry(d, Some(x))])
    {
      hide Values, RobinHoodSlots.Table, InRange;
      CarryingFits(entries[..], index, numSlotsMinusOne, maxLookups, p, x, d);
      SwapCarried(entries[..], index, numSlotsMinusOne, maxLookups, p, x, d);
      var e;
      e, x' := Swap(p, d, x);
      d' := e + 1;
    }

    /** Puts the carried key into an empty slot: the insertion is complete. */
    method Place(p: nat, d: nat, x: T)
      requires Sized() && Carrying(entries[..], index, numSlotsMinusOne, maxLookups, p, x, d)
      requires entries[p].distance < 0
      modifies this`numElements, entries
      ensures Valid() && p < End() && numElements == old(numElements) + 1
      ensures Contents() == old(Contents()) + {x}
      ensures entries[..] == old(entries[..][p := Entry(d, Some(x))])
    {
      hide Values, RobinHoodSlots.Table, InRange;
      CarryingFits(entries[..], index, numSlotsMinusOne, maxLookups, p, x, d);
      PlaceCarried(entries[..], index, numSlotsMinusOne, maxLookups, p, x, d);
      ghost var s := entries[..];
      entries[p] := Entry(d, Some(x));
      assert entries[..] == s[p := Entry(d, Some(x))];
      numElements := numElements + 1;
    }

    /** Exchanges a carried key and its distance with those of a slot. */
    method Swap(p: nat, d: int, x: T) returns (d': int, x': T)
      requires p < entries.Length && entries[p].stored.Some?
      modifies entries
      ensures entries[..] == old(entries[..][p := Entry(d, Some(x))])
      ensures Entry(d', Some(x')) == old(entries[p])
    {
      d', x' := entries[p].distance, entries[p].stored.value;
      entries[p] := Entry(d, Some(x));
    }

    /**
     The half-way undo: the carried key goes into the slot the new key took, at a
     distance that is not its own, and the new key is pending again.
     */
    method SwapBack(result: nat, carried: T, ghost key: T) returns (pending: T)
      requires Sized() && Loose(entries[..]) && carried !in Contents()
      requires result < entries.Length - 1 && entries[result].stored == Some(key)
      modifies entries
      ensures pending == key && Reloadable()
      ensures Contents() + {pending} == old(Contents()) + {carried} && pending !in Contents()
    {
      hide Values, Loose;
      SwapBackKeepsKeys(entries[..], result, key, carried);
      var d;
      d, pending := Swap(result, entries[result].distance, carried);
    }

    /** When emplace decides to grow, the level is still at most the element count. */
    lemma GrowthIsDue(distance: nat, current: nat)
      requires Valid()
      requires 0 < current < entries.Length && distance > 0 ==> entries[current - 1].distance >= distance - 1
      requires distance <= current < entries.Length
      requires numSlotsMinusOne == 0 || distance == maxLookups || 2 * (numElements + 1) > numSlotsMinusOne + 1
      ensures Level() <= numElements
      ensures Reloadable()
    {
      TableIsLoose(entries[..], index, numSlotsMinusOne, maxLookups);
      assert Log2(1) == 0;
      if numSlotsMinusOne != 0 {
        if distance == maxLookups {
          ProbeBoundedByCount(entries[..], index, numSlotsMinusOne, maxLookups, current, distance);
        } else if Level() > numElements {
          Pow2Exceeds(numElements);
          Pow2Monotone(numElements + 1, Level());
        }
      }
    }

    /** Doubles the bucket count (or starts with four) and reinserts everything. */
    method Grow()
      requires Reloadable() && Level() <= numElements
      modifies this, entries
      ensures Valid() && Contents() == old(Contents()) && numElements == old(numElements)
      ensures Level() > old(Level())
      ensures fresh(entries)
      decreases numElements - Level(), 5
    {
      assert Log2(1) == 0 && Pow2(0) == 1;
      NextSizeGrows(numSlotsMinusOne + 1, Max(Max(4, 2 * BucketCount()), 2 * numElements));
      Rehash(Max(4, 2 * BucketCount()));
    }

    /** The bucket count a rehash request leads to. */
    function TargetSize(numBuckets: nat): nat
      reads this
    {
      var n := Max(numBuckets, 2 * numElements);
      if n == 0 then 0 else NextSizeOver(n)
    }

    method Rehash(numBuckets: nat)
      requires Reloadable()
      requires Valid() || (TargetSize(numBuckets) != 0 && TargetSize(numBuckets) != BucketCount())
      modifies this, entries
      ensures Valid() && Contents() == old(Contents()) && numElements == old(numElements)
      ensures Level() >= Log2(old(TargetSize(numBuckets)))
      ensures entries == old(entries) || fresh(entries)
      ensures old(TargetSize(numBuckets) != BucketCount()) ==> fresh(entries)
      decreases if Log2(TargetSize(numBuckets)) <= numElements then numElements - Log2(TargetSize(numBuckets)) else 0, 4
    {
      hide Values, Ordered, Distinct, Reloadable, InRange;
      var n := Max(numBuckets, 2 * numElements);
      assert Log2(0) == 0 && Log2(1) == 0 && Pow2(0) == 1;
      if n == 0 {
        ResetToEmptyState();
        return;
      }
      NextSizeOverIsLeast(n);
      n := NextSizeOver(n);
      if n == BucketCount() {
        return;
      }
      MoveToFreshSlots(n);
    }

    /** New slots for n buckets, and every key of the old ones in them. */
    method MoveToFreshSlots(n: nat)
      requires Reloadable() && n >= 2 && IsPow2(n)
      modifies this, entries
      ensures Valid() && Contents() == old(Contents()) && numElements == old(numElements)
      ensures Level() >= Log2(n) && fresh(entries)
      decreases if Log2(n) <= numElements then numElements - Log2(n) else 0, 4, 0
    {
      hide Values, Ordered, Distinct, IsPow2, Log2, NextSizeOver, InRange;
      var oldEntries := entries;
      Allocate(n);
      AllocatedLevel(n);
      Reinsert(oldEntries, n);
    }

    lemma AllocatedLevel(n: nat)
      requires n >= 2 && numSlotsMinusOne == n - 1
      ensures Level() == Log2(n)
    {}

    /** Moves every key of the old slots into the fresh table, which may itself grow on the way. */
    method Reinsert(oldEntries: array<Entry<T>>, n: nat)
      requires Valid() && Contents() == {} && oldEntries != entries && Level() >= Log2(n)
      requires Loose(oldEntries[..])
      modifies this, entries, oldEntries
      ensures Valid() && Contents() == old(Values(oldEntries[..])) && Level() >= Log2(n)
      ensures entries == old(entries) || fresh(entries)
      decreases if Log2(n) <= |Values(oldEntries[..])| then |Values(oldEntries[..])| - Log2(n) else 0, 3
    {
      ghost var s := oldEntries[..];
      var i := 0;
      assert Values(s[..0]) == {};
      while i != oldEntries.Length - 1
        invariant 0 <= i <= oldEntries.Length - 1
        invariant Valid() && oldEntries != entries && (entries == old(entries) || fresh(entries))
        invariant Contents() == Values(s[..i]) && Level() >= Log2(n)
        invariant oldEntries[i..] == s[i..]
        decreases oldEntries.Length - i
      {
        ReinsertSlot(oldEntries, i, s);
        i := i + 1;
      }
      ValuesGrow(s, i);
      assert s[..i + 1] == s;
    }

    /** Moves the key of old slot i, if there is one. */
    method ReinsertSlot(oldEntries: array<Entry<T>>, i: nat, ghost s: seq<Entry<T>>)
      requires Valid() && oldEntries != entries && Loose(s)
      requires i < |s| - 1 && |s| == oldEntries.Length && oldEntries[i..] == s[i..]
      requires Contents() == Values(s[..i])
      modifies this, entries, oldEntries
      ensures Valid() && oldEntries != entries && (entries == old(entries) || fresh(entries))
      ensures Contents() == Values(s[..i + 1]) && Level() >= old(Level())
      ensures oldEntries[i + 1..] == s[i + 1..]
      decreases if Level() < |Values(s)| then |Values(s)| - Level() else 0, 2
    {
      assert oldEntries[i] == oldEntries[i..][0] == s[i];
      assert oldEntries[i + 1..] == s[i + 1..] by {
        assert oldEntries[i + 1..] == oldEntries[i..][1..];
        assert s[i + 1..] == s[i..][1..];
      }
      ValuesGrow(s, i);
      if oldEntries[i].distance >= 0 {
        var it, inserted := Emplace(oldEntries[i].stored.value);
        oldEntries[i] := EmptyEntry();
      }
    }

    /** Allocates the slots for n buckets, all empty but the sentinel. */
    method Allocate(n: nat)
      requires InRange(index) && n >= 2 && IsPow2(n)
      modifies this
      ensures Valid() && Contents() == {} && fresh(entries)
      ensures numSlotsMinusOne == n - 1
    {
      var lookups := Max(MIN_LOOKUPS, Log2(n));
      var slots := new Entry<T>[n + lookups](i => if i == n + lookups - 1 then EndEntry() else EmptyEntry());
      entries, numSlotsMinusOne, maxLookups, numElements := slots, n - 1, lookups, 0;
      EmptyTableOk(entries[..], index, n - 1, lookups);
    }

    method ResetToEmptyState()
      requires InRange(index) && numElements == 0
      modifies this
      ensures Valid() && Contents() == {} && fresh(entries)
      ensures numSlotsMinusOne == 0
    {
      var slots := new Entry<T>[MIN_LOOKUPS](i => if i == 3 then EndEntry() else EmptyEntry());
      entries, numSlotsMinusOne, maxLookups := slots, 0, MIN_LOOKUPS - 1;
      assert Log2(1) == 0 && Pow2(0) == 1;
      EmptyTableOk(entries[..], index, 0, 3);
    }

    method Reserve(n: nat)
      requires Valid()
      modifies this, entries
      ensures Valid() && Contents() == old(Contents()) && numElements == old(numElements)
      ensures BucketCount() >= 2 * n
      ensures entries == old(entries) || fresh(entries)
    {
      hide Values, Ordered, Distinct, Layout;
      var required := 2 * n;
      if required > BucketCount() {
        TableIsLoose(entries[..], index, numSlotsMinusOne, maxLookups);
        ghost var target := TargetSize(required);
        NextSizeOverIsLeast(Max(required, 2 * numElements));
        Rehash(required);
        Pow2Monotone(Log2(target), Level());
      }
    }

    method Clear()
      requires Valid()
      modifies this`numElements, entries
      ensures Valid() && Contents() == {}
    {
      hide Values, RobinHoodSlots.Table, InRange;
      EntryKinds(entries[..], index, numSlotsMinusOne, maxLookups);
      EndIsSentinel(entries[..], index, numSlotsMinusOne, maxLookups);
      var it := 0;
      while it != End()
        invariant 0 <= it <= End()
        invariant forall i | 0 <= i < it :: entries[i] == EmptyEntry()
        invariant forall i | it <= i < entries.Length :: entries[i] == old(entries[i])
        decreases End() - it
      {
        if entries[it].distance >= 0 {
          entries[it] := EmptyEntry();
        }
        it := it + 1;
      }
      numElements := 0;
      EmptyTableOk(entries[..], index, numSlotsMinusOne, maxLookups);
    }

    // ---------------------------------------------------------------- iteration and erasure

    /** The first occupied slot from it on; the sentinel ends the search. */
    method NextOccupied(it: nat) returns (r: nat)
      requires Valid() && it <= End()
      ensures it <= r <= End() && (r < End() ==> entries[r].stored.Some?)
      ensures Listing(Slots()[..r]) == Listing(Slots()[..it]) && Listing(Slots()[r..]) == Listing(Slots()[it..])
    {
      hide Listing, Values, Ordered, Distinct;
      r := it;
      while entries[r].distance < 0
        invariant it <= r <= End()
        invariant forall i | it <= i < r :: entries[i] == EmptyEntry()
        decreases End() - r
      {
        assert SlotOk(entries[..], r, index, numSlotsMinusOne, maxLookups);
        r := r + 1;
      }
      ListingGap(entries[..], it, r);
      if r < End() { assert SlotOk(entries[..], r, index, numSlotsMinusOne, maxLookups); }
    }

    /** Visits every stored key once, in slot order. */
    method ToSeq() returns (keys: seq<T>)
      requires Valid()
      ensures keys == Listing(Slots())
      ensures NoDuplicates(keys) && forall k :: k in keys <==> k in Contents()
    {
      hide Listing, Values, Layout, Ordered, Distinct;
      keys := [];
      var it := NextOccupied(0);
      ghost var s := entries[..];
      NothingListed(s);
      while it != End()
        invariant it <= End() && (it < End() ==> entries[it].stored.Some?)
        invariant keys == Listing(s[..it])
        decreases End() - it
      {
        keys := keys + [entries[it].stored.value];
        ListingSnoc(s, it);
        it := NextOccupied(it + 1);
      }
      EndAddsNothing(s, index, numSlotsMinusOne, maxLookups);
      ListingCovers(s);
      ListingHasNoDuplicates(s);
    }

    /** Erases the key in one slot and returns the iterator to the next surviving key. */
    method EraseAt(toErase: nat) returns (r: nat)
      requires Valid() && toErase < End() && entries[toErase].stored.Some?
      modifies this`numElements, entries
      ensures Valid() && Contents() == old(Contents()) - {old(entries[toErase].stored.value)}
      ensures numElements == old(numElements) - 1
      ensures r <= End() && (r < End() ==> entries[r].stored.Some?)
      ensures Listing(Slots()[..r]) == Listing(old(Slots())[..toErase])
      ensures Listing(Slots()[r..]) == Listing(old(Slots())[toErase + 1..])
    {
      hide Values, Listing, Ordered, Distinct, Layout;
      StoredIsValue(entries[..], toErase);
      numElements := numElements - 1;
      ShiftBack(toErase);
      r := NextOccupied(toErase);
    }

    /** Destroys the key in one slot and moves the run behind it back by one slot. */
    method ShiftBack(toErase: nat)
      requires Table(entries[..], index, numSlotsMinusOne, maxLookups)
      requires toErase < entries.Length - 1 && entries[toErase].stored.Some?
      modifies entries
      ensures Table(entries[..], index, numSlotsMinusOne, maxLookups)
      ensures Contents() == old(Contents()) - {old(entries[toErase].stored.value)}
      ensures |Contents()| == |old(Contents())| - 1
      ensures Listing(Slots()[..toErase]) == Listing(old(Slots())[..toErase])
      ensures Listing(Slots()[toErase..]) == Listing(old(Slots())[toErase + 1..])
    {
      hide Values, Listing, Ordered, Distinct;
      ghost var s := entries[..];
      var current := toErase;
      entries[current] := EmptyEntry();
      while entries[current + 1].distance > 0
        invariant toErase <= current < End()
        invariant ShiftedBack(s, entries[..], toErase, current)
        decreases End() - current
      {
        ghost var t := entries[..];
        assert t[current + 1] == s[current + 1];
        assert SlotOk(s, current + 1, index, numSlotsMinusOne, maxLookups);
        MoveDown(current + 1, 1);
        ShiftedBackStep(s, t, entries[..], toErase, current);
        current := current + 1;
      }
      assert entries[..][current + 1] == s[current + 1];
      BackwardShift(s, entries[..], toErase, current, index, numSlotsMinusOne, maxLookups);
    }

    method Erase(key: T) returns (count: nat)
      requires Valid()
      modifies this`numElements, entries
      ensures Valid() && Contents() == old(Contents()) - {key}
      ensures count == if key in old(Contents()) then 1 else 0
    {
      var found := Find(key);
      if found == End() {
        count := 0;
      } else {
        var _ := EraseAt(found);
        count := 1;
      }
    }

    /** Erases the keys from one iterator up to another; returns the iterator to the first survivor after them. */
    method EraseRange(first: nat, last: nat) returns (r: nat)
      requires first <= last < entries.Length
      requires first < entries.Length - 1 ==> entries[first].stored.Some?
      requires last < entries.Length - 1 ==> entries[last].stored.Some?
      requires Valid()
      modifies this`numElements, entries
      ensures Valid() && Contents() == old(Contents()) - Values(old(Slots())[first..last])
      ensures r <= End() && (r < End() ==> entries[r].stored.Some?)
      ensures Listing(Slots()[..r]) == Listing(old(Slots())[..first])
      ensures Listing(Slots()[r..]) == Listing(old(Slots())[last..])
    {
      hide Values, Listing, Ordered, Distinct, Destroyed;
      ghost var s := entries[..];
      if first == last {
        NothingBetween(s, first);
        return first;
      }
      DestroyRange(first, last);
      if last == End() {
        TailErased(s, entries[..], first, index, numSlotsMinusOne, maxLookups);
        return End();
      }
      assert SlotOk(s, last, index, numSlotsMinusOne, maxLookups);
      r := Compact(first, last, s);
    }

    /** Closes the gap [first, last) as far as the home slots of the following run allow. */
    method Compact(first: nat, last: nat, ghost s: seq<Entry<T>>) returns (r: nat)
      requires Table(s, index, numSlotsMinusOne, maxLookups)
      requires first < last < entries.Length - 1 && Destroyed(s, entries[..], first, last)
      requires s[last].stored.Some? && s[last].distance >= 0
      modifies entries
      ensures Table(entries[..], index, numSlotsMinusOne, maxLookups)
      ensures Contents() == Values(s) - Values(s[first..last])
      ensures |Contents()| == |Values(s)| - |Listing(s[first..last])|
      ensures r < End() && entries[r].stored.Some?
      ensures Listing(Slots()[..r]) == Listing(s[..first]) && Listing(Slots()[r..]) == Listing(s[last..])
    {
      hide Values, Listing, Ordered, Distinct, Compacting;
      assert entries[last] == entries[last..][0];
      var toMove: int := if entries[last].distance < last - first then entries[last].distance else last - first;
      r := last - toMove;
      CompactingStarts(s, entries[..], first, last, toMove, index, numSlotsMinusOne, maxLookups);
      var it := last;
      while entries[it].distance > 0
        invariant it <= End() && entries[it] == s[it]
        invariant Compacting(s, entries[..], first, last, r, it, toMove, index, numSlotsMinusOne, maxLookups)
        decreases End() - it
      {
        ghost var t, was := entries[..], toMove;
        CompactingMove(s, t, first, last, r, it, toMove, index, numSlotsMinusOne, maxLookups);
        MoveDown(it, toMove);
        it := it + 1;
        assert entries[it] == t[it] == s[it];
        toMove := if entries[it].distance < toMove then entries[it].distance else toMove;
        CompactingStep(s, t, first, last, r, it - 1, was, index, numSlotsMinusOne, maxLookups, entries[..], toMove);
      }
      CompactingEnds(s, entries[..], first, last, r, it, toMove, index, numSlotsMinusOne, maxLookups);
    }

    /** Moves one value down `steps` slots and leaves its old slot empty. */
    method MoveDown(from: nat, steps: int)
      requires 0 < steps <= from < entries.Length && entries[from].stored.Some?
      modifies entries
      ensures entries[..] ==
        old(entries[..]
          [from - steps := Entry(entries[from].distance - steps, entries[from].stored)][from := EmptyEntry()])
    {
      entries[from - steps] := Entry(entries[from].distance - steps, Some(entries[from].stored.value));
      entries[from] := EmptyEntry();
    }

    /** Destroys the values in a stretch of slots, keeping the count. */
    method DestroyRange(first: nat, last: nat)
      requires Valid() && first < last <= End()
      modifies this`numElements, entries
      ensures numElements == old(numElements) - |Listing(old(Slots())[first..last])|
      ensures Destroyed(old(entries[..]), entries[..], first, last)
    {
      hide Values, RobinHoodSlots.Table, InRange, Listing;
      ghost var s := entries[..];
      EntryKinds(s, index, numSlotsMinusOne, maxLookups);
      ListingUpTo(s, first, first);
      var it := first;
      while it != last
        invariant first <= it <= last
        invariant forall i | first <= i < it :: entries[i] == EmptyEntry()
        invariant forall i | 0 <= i < first || it <= i < entries.Length :: entries[i] == s[i]
        invariant numElements == old(numElements) - |Listing(s[first..it])|
        decreases last - it
      {
        ListingUpTo(s, first, it);
        RangeIsCounted(s, first, it + 1);
        if entries[it].distance >= 0 {
          entries[it] := EmptyEntry();
          numElements := numElements - 1;
        }
        it := it + 1;
      }
    }
  }

  lemma NothingListed<T>(s: seq<Entry<T>>)
    ensures Listing(s[..0]) == []
  {}

  /** The sentinel is not listed. */
  lemma EndAddsNothing<T(!new)>(s: seq<Entry<T>>, index: (T, nat) -> nat, mask: nat, lookups: nat)
    requires Table(s, index, mask, lookups)
    ensures Listing(s) == Listing(s[..mask + lookups])
  {}

  lemma NothingBetween<T(!new)>(s: seq<Entry<T>>, i: nat)
    requires i <= |s|
    ensures Values(s[i..i]) == {}
  {}

  /** t is s with the values in slots [first, last) destroyed. */
  ghost predicate Destroyed<T>(s: seq<Entry<T>>, t: seq<Entry<T>>, first: nat, last: nat)
  {
    && |t| == |s| && first < last < |s|
    && t[..first] == s[..first] && t[last..] == s[last..]
    && forall i | first <= i < last :: t[i] == EmptyEntry()
  }

  lemma EmptyTableOk<T(!new)>(s: seq<Entry<T>>, index: (T, nat) -> nat, mask: nat, lookups: nat)
    requires |s| == mask + lookups + 1 && s[mask + lookups] == EndEntry()
    requires forall i | 0 <= i < mask + lookups :: s[i] == EmptyEntry()
    ensures Table(s, index, mask, lookups) && Values(s) == {}
  {
    assert forall i: nat | i < mask + lookups :: SlotOk(s, i, index, mask, lookups);
    assert forall i | 0 < i < |s| - 1 :: StepOk(s, i);
  }

  lemma StoredIsValue<T(!new)>(s: seq<Entry<T>>, i: nat)
    requires i < |s| && s[i].stored.Some?
    ensures s[i].stored.value in Values(s)
  {}

  lemma TableIsLoose<T(!new)>(s: seq<Entry<T>>, index: (T, nat) -> nat, mask: nat, lookups: nat)
    requires Table(s, index, mask, lookups)
    ensures Loose(s)
  {
    forall i | 0 <= i < |s| - 1 ensures s[i].distance >= 0 <==> s[i].stored.Some? {
      assert SlotOk(s, i, index, mask, lookups);
    }
  }

  /** One more slot of the old array: its key, if any, has not been seen before. */
  lemma ValuesGrow<T(!new)>(s: seq<Entry<T>>, i: nat)
    requires i < |s| && Distinct(s)
    ensures Values(s[..i + 1]) == Values(s[..i]) + (if s[i].stored.Some? then {s[i].stored.value} else {})
    ensures s[i].stored.Some? ==> s[i].stored.value !in Values(s[..i]) && |Values(s[..i])| < |Values(s)|
  {
    var a, b := s[..i], s[..i + 1];
    ListingCovers(a);
    ListingCovers(b);
    assert b[..i] == a;
    if s[i].stored.Some? {
      forall j | 0 <= j < i && a[j].stored.Some? ensures a[j].stored != s[i].stored {
        assert a[j] == s[j];
      }
      StoredIsValue(s, i);
      assert Values(a) <= Values(s) - {s[i].stored.value} by {
        forall x | x in Values(a) ensures x in Values(s) {
          var j :| 0 <= j < i && a[j].stored.Some? && a[j].stored.value == x;
          assert s[j].stored == Some(x);
        }
      }
      SubsetSize(Values(a), Values(s) - {s[i].stored.value});
    }
  }

  lemma {:induction false} SubsetSize<T>(a: set<T>, b: set<T>)
    requires a <= b
    ensures |a| <= |b|
  {
    if a != {} {
      var x :| x in a;
      SubsetSize(a - {x}, b - {x});
    }
  }

  /** A slot before the sentinel has a distance exactly when it has a key, and is otherwise empty. */
  lemma EntryKinds<T(!new)>(s: seq<Entry<T>>, index: (T, nat) -> nat, mask: nat, lookups: nat)
    requires Table(s, index, mask, lookups)
    ensures |s| == mask + lookups + 1 && Distinct(s)
    ensures forall i | 0 <= i < |s| - 1 :: s[i].distance >= 0 <==> s[i].stored.Some?
    ensures forall i | 0 <= i < |s| - 1 :: s[i].distance < 0 ==> s[i] == EmptyEntry()
  {
    forall i | 0 <= i < |s| - 1
      ensures (s[i].distance >= 0 <==> s[i].stored.Some?) && (s[i].distance < 0 ==> s[i] == EmptyEntry())
    {
      assert SlotOk(s, i, index, mask, lookups);
    }
  }

  lemma EndIsSentinel<T(!new)>(s: seq<Entry<T>>, index: (T, nat) -> nat, mask: nat, lookups: nat)
    requires Table(s, index, mask, lookups)
    ensures |s| > 0 && s[|s| - 1] == EndEntry()
  {}

  /** One slot more lists at most one key more. */
  lemma ListingUpTo<T>(s: seq<Entry<T>>, first: nat, it: nat)
    requires first <= it < |s|
    ensures Listing(s[first..first]) == []
    ensures |Listing(s[first..it + 1])| == |Listing(s[first..it])| + (if s[it].stored.Some? then 1 else 0)
  {
    assert s[first..first] == [];
    assert s[first..it + 1][..it - first] == s[first..it] && s[first..it + 1][it - first] == s[it];
  }

  /** A stretch of slots lists no more keys than the table holds. */
  lemma RangeIsCounted<T(!new)>(s: seq<Entry<T>>, first: nat, last: nat)
    requires first <= last <= |s| && Distinct(s)
    ensures |Listing(s[first..last])| <= |Values(s)|
  {
    ListingAround(s, first, last);
    ListingHasNoDuplicates(s);
  }

  /** Erasing up to the end leaves a table as it stands. */
  lemma TailErased<T(!new)>(s: seq<Entry<T>>, t: seq<Entry<T>>, first: nat,
                            index: (T, nat) -> nat, mask: nat, lookups: nat)
    requires Table(s, index, mask, lookups)
    requires first < mask + lookups && Destroyed(s, t, first, mask + lookups)
    ensures Table(t, index, mask, lookups)
    ensures Values(t) == Values(s) - Values(s[first..mask + lookups])
    ensures |Values(t)| == |Values(s)| - |Listing(s[first..mask + lookups])|
    ensures Listing(t[..mask + lookups]) == Listing(s[..first])
    ensures Listing(t[mask + lookups..]) == Listing(s[mask + lookups..])
  {
    hide Values, Distinct;
    var end := mask + lookups;
    assert t[end] == t[end..][0] == s[end..][0] == s[end];
    assert RobinHoodSlots.Layout(t, index, mask, lookups) && Ordered(t) by {
      forall i: nat | i < end ensures SlotOk(t, i, index, mask, lookups) {
        assert SlotOk(s, i, index, mask, lookups);
        if i < first { assert t[i] == t[..first][i]; }
      }
      forall i | 0 < i < |t| - 1 ensures StepOk(t, i) {
        assert StepOk(s, i);
        assert SlotOk(t, i - 1, index, mask, lookups);
        if i < first { assert t[i] == t[..first][i] && t[i - 1] == t[..first][i - 1]; }
      }
    }
    TailListing(s, t, first, end);
    ErasedListing(s, t, Listing(s[..first]), Listing(s[first..end]), Listing(s[end..]));
    ListingCovers(s[first..end]);
    assert (set x | x in Listing(s[first..end])) == Values(s[first..end]);
  }

  lemma TailListing<T(!new)>(s: seq<Entry<T>>, t: seq<Entry<T>>, first: nat, end: nat)
    requires |s| == |t| == end + 1 && first < end
    requires t[..first] == s[..first] && t[end] == s[end]
    requires forall i | first <= i < end :: t[i] == EmptyEntry()
    ensures Listing(t[..end]) == Listing(s[..first]) && Listing(t[end..]) == Listing(s[end..])
    ensures Listing(t) == Listing(s[..first]) + Listing(s[end..])
    ensures Listing(s) == Listing(s[..first]) + Listing(s[first..end]) + Listing(s[end..])
  {
    assert t[end..] == s[end..];
    ListingTrailing(t[..end], first);
    assert t[..end][..first] == t[..first];
    ListingSplit(t, end);
    ListingAround(s, first, end);
  }

  // ---------------------------------------------------------------- whole runs

  datatype Op<T> = Insert(key: T) | EraseKey(key: T) | Lookup(key: T) | ReserveFor(n: nat) | RehashTo(n: nat) | ClearAll

  /** The mathematical set each operation acts on, and the answer it owes its caller. */
  function SetAfter<T>(op: Op<T>, s: set<T>): set<T>
  {
    match op
    case Insert(k) => s + {k}
    case EraseKey(k) => s - {k}
    case ClearAll => {}
    case _ => s
  }

  predicate Answer<T>(op: Op<T>, s: set<T>)
  {
    match op
    case Insert(k) => k !in s
    case EraseKey(k) => k in s
    case Lookup(k) => k in s
    case _ => true
  }

  function Answers<T>(ops: seq<Op<T>>, s: set<T>): seq<bool>
  {
    if ops == [] then [] else [Answer(ops[0], s)] + Answers(ops[1..], SetAfter(ops[0], s))
  }

  /** A rehash from a whole table. */
  method RehashWhole<T(!new)>(t: HashSet<T>, n: nat)
    requires t.Valid()
    modifies t, t.entries
    ensures t.Valid() && t.Contents() == old(t.Contents())
    ensures t.entries == old(t.entries) || fresh(t.entries)
  {
    hide Values, Ordered, Distinct, HashSet.Contents;
    TableIsLoose(t.entries[..], t.index, t.numSlotsMinusOne, t.maxLookups);
    t.Rehash(n);
  }

  method Step<T(!new, ==)>(t: HashSet<T>, op: Op<T>) returns (answer: bool)
    requires t.Valid()
    modifies t, t.entries
    ensures t.Valid() && t.Contents() == SetAfter(op, old(t.Contents()))
    ensures answer == Answer(op, old(t.Contents()))
    ensures t.entries == old(t.entries) || fresh(t.entries)
  {
    hide HashSet.Valid, HashSet.Contents;
    answer := true;
    match op {
      case Insert(k) => var it; it, answer := t.Emplace(k);
      case EraseKey(k) => var n := t.Erase(k); answer := n == 1;
      case Lookup(k) => var it := t.Find(k); answer := it != t.End();
      case ReserveFor(n) => t.Reserve(n);
      case RehashTo(n) => RehashWhole(t, n);
      case ClearAll => t.Clear();
    }
  }

  /** Any run on a new table answers exactly as a mathematical set would. */
  method Run<T(!new, ==)>(index: (T, nat) -> nat, ops: seq<Op<T>>) returns (answers: seq<bool>)
    requires InRange(index)
    ensures answers == Answers(ops, {})
  {
    hide HashSet.Valid, HashSet.Contents, SetAfter, Answer, InRange;
    var t := new HashSet(index);
    answers := [];
    var i := 0;
    while i < |ops|
      invariant 0 <= i <= |ops|
      invariant t.Valid() && fresh(t) && fresh(t.entries)
      invariant answers + Answers(ops[i..], t.Contents()) == Answers(ops, {})
    {
      assert ops[i..][1..] == ops[i + 1..];
      ghost var rest := Answers(ops[i + 1..], SetAfter(ops[i], t.Contents()));
      var a := Step(t, ops[i]);
      assert answers + ([a] + rest) == (answers + [a]) + rest;
      answers := answers + [a];
      i := i + 1;
    }
  }
}
