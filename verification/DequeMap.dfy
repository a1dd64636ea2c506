/**
 The deque's map of block pointers: which slots are used, which addresses are live,
 how the used stretch grows, and when a slot outside it still points to a live block.
 */
module DequeMap {
  import opened Words
  import opened DequeMemory

  const INITIAL_MAP_SIZE: nat := 8

  /** The allocator: some address that is not live, chosen as it likes. */
  type Allocator = pick: (nat, set<BlockId>) -> BlockId | Allocates(pick) ghost witness (n, live) => Above(live)

  ghost predicate Allocates(pick: (nat, set<BlockId>) -> BlockId)
  {
    forall n, live :: pick(n, live) !in live
  }

  /** The live addresses after k more blocks; n have been handed out before. */
  function HandedOut(pick: (nat, set<BlockId>) -> BlockId, n: nat, live: set<BlockId>, k: nat): (r: set<BlockId>)
    ensures live <= r
  {
    if k == 0 then live
    else
      var some := HandedOut(pick, n, live, k - 1);
      some + {pick(n + k - 1, some)}
  }

  /** The slots, the used stretch of them, the live addresses, and how many blocks have been handed out. */
  datatype MapState = MapState(slots: seq<BlockId>, lo: int, hi: int, live: set<BlockId>, handed: nat)

  /** The stretch has every live address exactly once. */
  ghost predicate Sound(m: MapState)
  {
    && 0 <= m.lo <= m.hi <= |m.slots|
    && Distinct(m.slots[m.lo..m.hi]) && m.live == Members(m.slots[m.lo..m.hi])
  }

  /** As the header has it: a slot points to an allocated node if and only if it is in the stretch. */
  ghost predicate OnlyStretchIsLive(m: MapState)
  {
    forall i | 0 <= i < |m.slots| :: m.slots[i] in m.live <==> m.lo <= i < m.hi
  }

  // ---------------------------------------------------------------- growing

  datatype Shape = Shape(size: nat, lo: int, hi: int)

  function ShapeOf(m: MapState): Shape { Shape(|m.slots|, m.lo, m.hi) }

  /** The size of the map that replaces one too small. */
  function LargerMap(size: nat, nodesToAdd: nat): nat { size + Max(size, nodesToAdd) + 2 }

  /** Where the first used slot goes, so that the used slots with those to come are in the middle. */
  function MiddlePlace(size: nat, newNum: nat, nodesToAdd: nat, addAtFront: bool): int
  {
    (size - newNum) / 2 + if addAtFront then nodesToAdd else 0
  }

  /** How many blocks n cells take beyond those vacant. */
  function BlocksNeeded(n: nat, vacant: int, size: nat): nat
    requires size > 0
  {
    if n > vacant then BlocksFor(n - vacant, size) else 0
  }

  /** The stretch after need more blocks at one end: in place when they fit, else in the middle of a map. */
  function Grown(s: Shape, need: nat, front: bool): Shape
    requires s.lo <= s.hi
  {
    if front && need <= s.lo then Shape(s.size, s.lo - need, s.hi)
    else if !front && s.hi + need <= s.size then Shape(s.size, s.lo, s.hi + need)
    else
      var newNum: nat := s.hi - s.lo + need;
      var size := if s.size > 2 * newNum then s.size else LargerMap(s.size, need);
      var first := MiddlePlace(size, newNum, 0, false);
      Shape(size, first, first + newNum)
  }

  /** need more blocks at one end; slots outside the stretch keep what they held, unless the map is a new one. */
  ghost predicate Grew(was: MapState, now: MapState, need: nat, front: bool, pick: (nat, set<BlockId>) -> BlockId)
  {
    && was.lo <= was.hi
    && ShapeOf(now) == Grown(ShapeOf(was), need, front)
    && now.handed == was.handed + need && now.live == HandedOut(pick, was.handed, was.live, need)
    && (|now.slots| == |was.slots| ==> SameOutside(was.slots, now.slots, now.lo, now.hi))
  }

  /** The used slots moved to the middle of this map or a larger one, with room for need more at one end. */
  ghost predicate MovedToMiddle(was: MapState, now: MapState, need: nat, front: bool)
  {
    && was.lo <= was.hi && now.live == was.live && now.handed == was.handed
    && var newNum: nat := was.hi - was.lo + need;
    && |now.slots| == (if |was.slots| > 2 * newNum then |was.slots| else LargerMap(|was.slots|, need))
    && now.lo == MiddlePlace(|now.slots|, newNum, need, front) && now.hi == now.lo + (was.hi - was.lo)
    && (|now.slots| == |was.slots| ==> SameOutside(was.slots, now.slots, now.lo, now.hi))
  }

  /** In numbers: the map's new size, and how many slots stay free in front. */
  lemma MiddleInNumbers(was: MapState, now: MapState, need: nat, front: bool)
    requires MovedToMiddle(was, now, need, front)
    ensures var used := was.hi - was.lo;
      && |now.slots| == (if |was.slots| > 2 * (used + need) then |was.slots|
                         else |was.slots| + (if |was.slots| > need then |was.slots| else need) + 2)
      && now.lo == (|now.slots| - (used + need)) / 2 + (if front then need else 0)
      && now.hi == now.lo + used
  {}

  ghost predicate SameOutside(was: seq<BlockId>, now: seq<BlockId>, lo: int, hi: int)
  {
    |was| == |now| && forall i | 0 <= i < |now| && !(lo <= i < hi) :: now[i] == was[i]
  }

  /** need blocks taken into the slots next to the stretch. */
  ghost predicate Lengthened(was: MapState, now: MapState, need: nat, front: bool, pick: (nat, set<BlockId>) -> BlockId)
  {
    && now.handed == was.handed + need && now.live == HandedOut(pick, was.handed, was.live, need)
    && now.lo == (if front then was.lo - need else was.lo) && now.hi == (if front then was.hi else was.hi + need)
    && SameOutside(was.slots, now.slots, if front then now.lo else was.hi, if front then was.lo else now.hi)
  }

  lemma MovedAndFilled(was: MapState, mid: MapState, now: MapState, need: nat, front: bool,
    pick: (nat, set<BlockId>) -> BlockId)
    requires 0 <= was.lo <= was.hi <= |was.slots|
    requires if (if front then need <= was.lo else was.hi + need <= |was.slots|) then mid == was
             else MovedToMiddle(was, mid, need, front)
    requires Lengthened(mid, now, need, front, pick)
    ensures Grew(was, now, need, front, pick)
  {}

  lemma GrewNothing(m: MapState, front: bool, pick: (nat, set<BlockId>) -> BlockId)
    requires Sound(m)
    ensures Grew(m, m, 0, front, pick)
  {}

  /**
   What has to hold before the call for the header's statement to hold after it: the
   stretch stays where it is or moves to where it covers its old place, and no address
   about to be handed out is still in a slot outside.
   */
  ghost predicate StaysClean(was: MapState, need: nat, front: bool, pick: (nat, set<BlockId>) -> BlockId)
    requires was.lo <= was.hi
  {
    var to := Grown(ShapeOf(was), need, front);
    && to.lo <= was.lo && was.hi <= to.hi
    && forall i | 0 <= i < |was.slots| && !(to.lo <= i < to.hi) ::
         was.slots[i] !in HandedOut(pick, was.handed, was.live, need) - was.live
  }

  /** Growing in the same map keeps the header's statement if and only if this holds. */
  lemma GrowingKeepsHeaderIff(was: MapState, now: MapState, need: nat, front: bool,
    pick: (nat, set<BlockId>) -> BlockId)
    requires Sound(was) && was.lo < was.hi && OnlyStretchIsLive(was)
    requires Sound(now) && Grew(was, now, need, front, pick) && |now.slots| == |was.slots|
    ensures OnlyStretchIsLive(now) <==> StaysClean(was, need, front, pick)
  {
    var need' := HandedOut(pick, was.handed, was.live, need);
    hide HandedOut, Sound, Grown;
    BothEndsIn(was);
    HeaderHoldsIff(now);
    assert now.live == need' && was.live <= need';
    if OnlyStretchIsLive(now) {
      assert was.slots[was.lo] in now.live && was.slots[was.hi - 1] in now.live;
    }
  }

  lemma BothEndsIn(m: MapState)
    requires Sound(m) && m.lo < m.hi
    ensures 0 <= m.lo < m.hi <= |m.slots| && m.slots[m.lo] in m.live && m.slots[m.hi - 1] in m.live
  {
    InStretch(m);
  }

  lemma InStretch(m: MapState)
    requires Sound(m)
    ensures forall i | m.lo <= i < m.hi :: m.slots[i] in m.live
  {
    forall i | m.lo <= i < m.hi ensures m.slots[i] in m.live {
      assert m.slots[i] == m.slots[m.lo..m.hi][i - m.lo];
    }
  }

  /** The map made for the first elements. */
  ghost predicate FirstMap(m: MapState, n: nat, pick: (nat, set<BlockId>) -> BlockId)
  {
    ShapeOf(m) == Shape(INITIAL_MAP_SIZE, 3, 4) && m.live == {pick(n, {})} && m.handed == n + 1
  }

  /** In a map that has stayed where it is, the header's statement is kept exactly when StaysClean says so. */
  ghost predicate HeaderKeptIff(was: MapState, now: MapState, need: nat, front: bool,
    pick: (nat, set<BlockId>) -> BlockId)
    requires was.lo <= was.hi
  {
    OnlyStretchIsLive(was) && |now.slots| == |was.slots| ==>
      (OnlyStretchIsLive(now) <==> StaysClean(was, need, front, pick))
  }

  lemma GrewWithHeader(was: MapState, now: MapState, need: nat, front: bool, pick: (nat, set<BlockId>) -> BlockId)
    requires Sound(was) && was.lo < was.hi && Sound(now) && Grew(was, now, need, front, pick)
    ensures HeaderKeptIff(was, now, need, front, pick)
  {
    hide Sound, Grew, OnlyStretchIsLive, StaysClean;
    if OnlyStretchIsLive(was) && |now.slots| == |was.slots| {
      GrowingKeepsHeaderIff(was, now, need, front, pick);
    }
  }

  /** In any map it holds if and only if no slot outside the stretch has a live address. */
  lemma HeaderHoldsIff(m: MapState)
    requires Sound(m)
    ensures OnlyStretchIsLive(m) <==> forall i | 0 <= i < |m.slots| && !(m.lo <= i < m.hi) :: m.slots[i] !in m.live
  {
    InStretch(m);
  }

  // ---------------------------------------------------------------- shrinking

  /** Blocks given up at either end, nothing else. */
  ghost predicate Shrank(was: MapState, now: MapState)
  {
    && was.slots == now.slots && was.lo <= now.lo <= now.hi <= was.hi && now.handed == was.handed
    && Sound(now)
  }

  /** Giving up blocks keeps the header's statement. */
  lemma ShrinkingKeepsHeader(was: MapState, now: MapState)
    requires Sound(was) && OnlyStretchIsLive(was) && Shrank(was, now)
    ensures OnlyStretchIsLive(now)
  {
    InStretch(now);
    forall i | 0 <= i < |now.slots| && !(now.lo <= i < now.hi) ensures now.slots[i] !in now.live {
      if now.slots[i] in now.live {
        var j :| 0 <= j < now.hi - now.lo && now.slots[now.lo..now.hi][j] == now.slots[i];
        TwiceInStretch(was, now.lo + j, i);
      }
    }
  }

  lemma TwiceInStretch(m: MapState, i: int, j: int)
    requires Sound(m) && OnlyStretchIsLive(m) && m.lo <= i < m.hi && 0 <= j < |m.slots| && m.slots[i] == m.slots[j]
    ensures i == j
  {
    var ids := m.slots[m.lo..m.hi];
    InStretch(m);
    assert m.lo <= j < m.hi;
    assert ids[i - m.lo] == ids[j - m.lo];
  }
}
