/** Whole runs of a deque: any sequence of operations leaves what the same operations on a sequence leave. */
module DequeRuns {
  import opened DequeMemory
  import opened DequeCells
  import opened DequeMap
  import opened SegmentedDeque

  /** An operation; positions count from the front. One that names a position there is not does nothing. */
  datatype Op<T> =
    | PushBack(x: T) | PushFront(x: T) | PopBack | PopFront
    | Insert(at: nat, xs: seq<T>) | Erase(at: nat) | EraseRange(first: nat, last: nat) | Clear

  ghost function Applied<T>(c: seq<Cell<T>>, op: Op<T>, sm: T -> Initialised<T>): seq<Cell<T>>
  {
    match op
    case PushBack(x) => c + [Live(x)]
    case PushFront(x) => [Live(x)] + c
    case PopBack => if c == [] then c else c[..|c| - 1]
    case PopFront => if c == [] then c else c[1..]
    case Insert(at, xs) => if at <= |c| then AfterInsert(c, at, xs, sm) else c
    case Erase(at) => if at < |c| then c[..at] + c[at + 1..] else c
    case EraseRange(first, last) => if first <= last <= |c| then AfterErase(c, first, last, sm) else c
    case Clear => []
  }

  ghost function AppliedAll<T>(ops: seq<Op<T>>, sm: T -> Initialised<T>): seq<Cell<T>>
  {
    if ops == [] then [] else Applied(AppliedAll(ops[..|ops| - 1], sm), ops[|ops| - 1], sm)
  }

  /** The iterator for a position. */
  method Position<T(==)>(d: Deque<T>, e: nat) returns (it: Iter)
    requires d.Valid() && e <= |d.Contents()|
    ensures d.IsAt(it, e)
  {
    hide Deque.Valid, Deque.Contents, Deque.IsAt;
    if d.slots.Length == 0 {
      d.EndIsAt();
      d.WhereIsAt(d.finish, |d.Contents()|);
      it := d.start;
    } else {
      it := d.AtIndex(e);
    }
  }

  method Step<T(==)>(d: Deque<T>, op: Op<T>)
    requires d.Valid()
    modifies d, d.slots
    ensures d.slots == old(d.slots) || fresh(d.slots)
    ensures d.Valid() && d.Contents() == Applied(old(d.Contents()), op, d.selfMove)
  {
    hide Deque.Valid, Deque.Contents, Deque.IsAt;
    var size := d.Size();
    match op
    case PushBack(x) => ghost var base := d.PushBack(x);
    case PushFront(x) => ghost var base := d.PushFront(x);
    case PopBack => if size > 0 { d.PopBack(); }
    case PopFront => if size > 0 { d.PopFront(); }
    case Insert(at, xs) =>
      if at <= size {
        var p := Position(d, at);
        ghost var base;
        var r;
        r, base := d.Insert(p, xs, at);
      }
    case Erase(at) =>
      if at < size {
        var p := Position(d, at);
        var r := d.Erase(p, at);
      }
    case EraseRange(first, last) =>
      if first <= last <= size {
        var p := Position(d, first);
        var q := Position(d, last);
        var r := d.EraseRange(p, q, first, last);
      }
    case Clear => d.Clear();
  }

  /** The elements, read from the first to the last. */
  method ToSeq<T(==)>(d: Deque<T>) returns (cells: seq<Cell<T>>)
    requires d.Valid()
    ensures cells == d.Contents()
  {
    hide Deque.Owns, Deque.Mem, Deque.Is, Deque.Valid, Deque.Contents, Deque.At;
    var n := d.Size();
    if n == 0 { return []; }
    d.NotEmpty();
    d.Unsettled();
    cells := ReadAll(d, d.At(d.start), d.At(d.finish));
  }

  method ReadAll<T(==)>(d: Deque<T>, ghost a: nat, ghost z: nat) returns (cells: seq<Cell<T>>)
    requires d.Framed(a, z) && a <= z <= |d.Mem()|
    ensures cells == d.Mem()[a..z]
  {
    hide Deque.Owns, Deque.Mem, Deque.Is, Holds;
    ghost var m := d.Mem();
    d.IsInMem(d.finish, z);
    AllInitialised(m, a, z);
    var it := d.start;
    ghost var v: nat := a;
    cells := [];
    d.SameIsAt(it, d.finish, v, z);
    while !d.Same(it, d.finish)
      invariant a <= v <= z && d.Is(it, v) && (d.Same(it, d.finish) <==> v == z)
      invariant cells == m[a..v]
      decreases z - v
    {
      var c := d.Get(it, v);
      it := d.Forward(it, v);
      cells := cells + [c];
      v := v + 1;
      d.SameIsAt(it, d.finish, v, z);
    }
  }

  lemma AllInitialised<T>(m: seq<Cell<T>>, a: nat, z: nat)
    requires Holds(m, a, z)
    ensures forall i | a <= i < z :: m[i] != Raw
  {}

  /** From an empty deque with blocks of any size, any element type and any allocator. */
  method Run<T(==)>(blockSize: nat, selfMove: T -> Initialised<T>, pick: Allocator, ops: seq<Op<T>>)
    returns (cells: seq<Cell<T>>)
    requires blockSize > 0
    ensures cells == AppliedAll(ops, selfMove)
  {
    hide Deque.Valid, Deque.Contents, Applied;
    var d := new Deque(blockSize, selfMove, pick);
    var i := 0;
    while i < |ops|
      invariant 0 <= i <= |ops| && fresh(d) && fresh(d.slots)
      invariant d.selfMove == selfMove && d.Valid() && d.Contents() == AppliedAll(ops[..i], selfMove)
    {
      Step(d, ops[i]);
      assert ops[..i + 1][..i] == ops[..i];
      i := i + 1;
    }
    assert ops[..i] == ops;
    cells := ToSeq(d);
  }

  /** The same operations on a sequence of elements. */
  ghost function OnSequence<T>(s: seq<T>, op: Op<T>): seq<T>
  {
    match op
    case PushBack(x) => s + [x]
    case PushFront(x) => [x] + s
    case PopBack => if s == [] then s else s[..|s| - 1]
    case PopFront => if s == [] then s else s[1..]
    case Insert(at, xs) => if at <= |s| then s[..at] + xs + s[at..] else s
    case Erase(at) => if at < |s| then s[..at] + s[at + 1..] else s
    case EraseRange(first, last) => if first <= last <= |s| then s[..first] + s[last..] else s
    case Clear => []
  }

  ghost function AllOnSequence<T>(ops: seq<Op<T>>): seq<T>
  {
    if ops == [] then [] else OnSequence(AllOnSequence(ops[..|ops| - 1]), ops[|ops| - 1])
  }

  /** Elements that survive being moved onto themselves: a run leaves what it leaves of a sequence. */
  lemma {:induction false} RunIsOnSequence<T(!new)>(ops: seq<Op<T>>, sm: T -> Initialised<T>)
    requires forall x: T :: sm(x) == Live(x)
    ensures |AppliedAll(ops, sm)| == |AllOnSequence(ops)|
    ensures forall i | 0 <= i < |AllOnSequence(ops)| :: AppliedAll(ops, sm)[i] == Live(AllOnSequence(ops)[i])
  {
    hide Applied, OnSequence;
    if ops != [] {
      var most := ops[..|ops| - 1];
      RunIsOnSequence(most, sm);
      assert AppliedAll(most, sm) == Objects(AllOnSequence(most));
      StepIsOnSequence(AllOnSequence(most), ops[|ops| - 1], sm);
    }
  }

  lemma StepIsOnSequence<T(!new)>(s: seq<T>, op: Op<T>, sm: T -> Initialised<T>)
    requires forall x: T :: sm(x) == Live(x)
    ensures Applied(Objects(s), op, sm) == Objects(OnSequence(s, op))
  {
    hide AfterInsert, AfterErase;
    match op
    case Insert(at, xs) => if at <= |s| { InsertKeepsValuesIff(s, at, xs, sm); }
    case EraseRange(first, last) => if first <= last <= |s| { EraseKeepsValuesIff(s, first, last, sm); }
    case _ =>
  }

  /** The shortest run in which nothing is inserted and an element may be lost. */
  lemma EmptyInsertInARun<T>(x: T, y: T, sm: T -> Initialised<T>)
    ensures AppliedAll([PushBack(x), PushBack(y), Insert(1, [])], sm) == [Live(x), sm(y)]
  {
    var ops := [PushBack(x), PushBack(y), Insert(1, [])];
    assert ops[..2] == [PushBack(x), PushBack(y)] && ops[..2][..1] == [PushBack(x)] && ops[..1][..0] == [];
    assert AppliedAll(ops[..1], sm) == [Live(x)];
    assert AppliedAll(ops[..2], sm) == [Live(x), Live(y)];
    var c := [Live(x), Live(y)];
    assert AfterInsert(c, 1, [], sm)[0] == Live(x) && AfterInsert(c, 1, [], sm)[1] == sm(y);
  }

  // ---------------------------------------------------------------- the header's statement, broken by calls

  lemma OneBlock()
    ensures BlocksNeeded(1, 0, 1) == 1
  {}

  /** One element a block: both ends are always at offset 0. */
  lemma AtOffsetZero<T>(d: Deque<T>)
    requires d.Valid() && d.blockSize == 1
    ensures d.start.cur == 0 && d.finish.cur == 0
  {
    hide Deque.Owns, Deque.Mem;
  }

  /** push_back with blocks of one element: one more block behind. */
  method PushOne<T(==)>(d: Deque<T>, x: T)
    requires d.Valid() && d.blockSize == 1 && d.slots.Length > 0
    modifies d, d.slots
    ensures d.slots == old(d.slots) || fresh(d.slots)
    ensures d.Valid() && d.slots.Length > 0 && |d.Contents()| == |old(d.Contents())| + 1
    ensures Grew(old(d.Map()), d.Map(), 1, false, d.pick)
  {
    hide Deque.Valid, Deque.Contents, Deque.Owns, Grew, HeaderKeptIff;
    AtOffsetZero(d);
    OneBlock();
    ghost var base := d.PushBack(x);
  }

  /** The first one makes the map. */
  method FirstPush<T(==)>(d: Deque<T>, x: T)
    requires d.Valid() && d.blockSize == 1 && d.slots.Length == 0 && d.handed == 0
    modifies d, d.slots
    ensures fresh(d.slots)
    ensures d.Valid() && d.slots.Length > 0 && |d.Contents()| == 1
    ensures ShapeOf(d.Map()) == Shape(8, 3, 5) && d.handed == 2
    ensures d.blocks.Keys == HandedOut(d.pick, 1, {d.pick(0, {})}, 1)
  {
    hide Deque.Owns, Deque.Contents, HandedOut;
    AtOffsetZero(d);
    OneBlock();
    d.EndIsAt();
    d.WhereIsAt(d.finish, |d.Contents()|);
    ghost var base := d.PushBack(x);
  }

  /** pop_front with blocks of one element: one block fewer in front. */
  method PopOne<T(==)>(d: Deque<T>)
    requires d.Valid() && d.blockSize == 1 && |d.Contents()| > 0
    modifies d, d.slots
    ensures d.slots == old(d.slots)
    ensures d.Valid() && d.slots.Length > 0 && |d.Contents()| == |old(d.Contents())| - 1
    ensures d.lo == old(d.lo) + 1 && d.hi == old(d.hi) && d.slots[..] == old(d.slots[..]) && Sound(d.Map())
  {
    hide Deque.Valid, Deque.Contents, Deque.Owns, OnlyStretchIsLive, Sound;
    AtOffsetZero(d);
    d.PopFront();
  }

  /** What a grown map keeps: its live blocks, and the slots outside. */
  lemma GrownKeeps(was: MapState, now: MapState, need: nat, front: bool, pick: Allocator)
    requires Grew(was, now, need, front, pick)
    ensures ShapeOf(now) == Grown(ShapeOf(was), need, front) && was.live <= now.live
    ensures |now.slots| == |was.slots| ==> SameOutside(was.slots, now.slots, now.lo, now.hi)
  {}

  /** Pushes and pops up to a stretch of two blocks at the end of the map. */
  method WalkToTheEnd<T(==)>(x: T, selfMove: T -> Initialised<T>, pick: Allocator) returns (d: Deque<T>)
    ensures fresh(d) && fresh(d.slots) && d.Valid() && d.blockSize == 1
    ensures d.pick == pick && ShapeOf(d.Map()) == Shape(8, 6, 8) && Sound(d.Map())
  {
    hide Deque.Valid, Deque.Contents, Deque.Owns, HandedOut, Sound, Grew;
    d := new Deque(1, selfMove, pick);
    FirstPush(d, x);
    ghost var m := d.Map();
    PushOne(d, x);
    GrownKeeps(m, d.Map(), 1, false, pick);
    m := d.Map();
    PushOne(d, x);
    GrownKeeps(m, d.Map(), 1, false, pick);
    m := d.Map();
    PushOne(d, x);
    GrownKeeps(m, d.Map(), 1, false, pick);
    PopOne(d);
    PopOne(d);
    PopOne(d);
  }

  /**
   Four elements pushed and three taken from the front leave the stretch at the end of
   the map; one more push moves it to the middle.  The pointers it leaves behind still
   lead to live blocks, whatever the allocator does.
   */
  method MovingLeavesPointers<T(==)>(x: T, selfMove: T -> Initialised<T>, pick: Allocator) returns (d: Deque<T>)
    ensures fresh(d) && d.Valid() && !OnlyStretchIsLive(d.Map())
    ensures ShapeOf(d.Map()) == Shape(8, 2, 5) && d.slots[6] in d.blocks
  {
    hide Deque.Valid, Deque.Contents, Deque.Owns, HandedOut, Sound, Grew;
    d := WalkToTheEnd(x, selfMove, pick);
    ghost var m := d.Map();
    InStretch(m);
    PushOne(d, x);
    GrownKeeps(m, d.Map(), 1, false, pick);
    assert d.Map().slots[6] == m.slots[6] && m.slots[6] in d.Map().live;
  }

  // ---------------------------------------------------------------- an address handed out again

  /** The least address not in use. */
  function LeastUnused(k: BlockId, live: set<BlockId>): (r: BlockId)
    ensures k <= r && r !in live
    ensures forall i | k <= i < r :: i in live
    decreases live
  {
    if k !in live then k
    else
      var r := LeastUnused(k + 1, live - {k});
      assert forall i | k <= i < r :: i in live;
      r
  }

  const LOWEST_FIRST: Allocator := (n, live) => LeastUnused(0, live)

  lemma LeastOfFour(w: BlockId)
    requires w <= 3
    ensures LeastUnused(0, {0, 1, 2, 3} - {w}) == w
  {
    var live: set<BlockId> := {0, 1, 2, 3} - {w};
    assert forall i: BlockId | i < w :: i in live;
    assert w !in live;
  }

  lemma LeastAbove(live: set<BlockId>, n: nat)
    requires forall i: BlockId :: i in live <==> i < n
    ensures LeastUnused(0, live) == n
  {
    assert n !in live;
  }

  lemma FirstFour(pick: Allocator)
    requires pick == LOWEST_FIRST
    ensures HandedOut(pick, 1, {pick(0, {})}, 1) == {0, 1}
    ensures HandedOut(pick, 2, {0, 1}, 1) == {0, 1, 2}
    ensures HandedOut(pick, 3, {0, 1, 2}, 1) == {0, 1, 2, 3}
  {
    LeastAbove({}, 0);
    LeastAbove({0}, 1);
    LeastAbove({0, 1}, 2);
    LeastAbove({0, 1, 2}, 3);
    HandedOne(pick, 1, {0});
    HandedOne(pick, 2, {0, 1});
    HandedOne(pick, 3, {0, 1, 2});
  }

  lemma HandedOne(pick: Allocator, n: nat, live: set<BlockId>)
    ensures HandedOut(pick, n, live, 1) == live + {pick(n, live)}
  {
    assert HandedOut(pick, n, live, 0) == live;
  }

  /** pop_back with blocks of one element: one block fewer behind. */
  method PopLastOne<T(==)>(d: Deque<T>)
    requires d.Valid() && d.blockSize == 1 && |d.Contents()| > 0
    modifies d, d.slots
    ensures d.slots == old(d.slots) && d.handed == old(d.handed)
    ensures d.Valid() && d.slots.Length > 0 && |d.Contents()| == |old(d.Contents())| - 1
    ensures d.hi == old(d.hi) - 1 && d.lo == old(d.lo) && d.slots[..] == old(d.slots[..]) && Sound(d.Map())
  {
    hide Deque.Valid, Deque.Contents, Deque.Owns, OnlyStretchIsLive, Sound;
    AtOffsetZero(d);
    d.PopBack();
  }

  lemma LastGivenUp(was: MapState, now: MapState)
    requires Sound(was) && Sound(now) && was.lo < was.hi && was.slots == now.slots
      && was.lo == now.lo && now.hi == was.hi - 1
    ensures was.slots[now.hi] in was.live && now.live == was.live - {was.slots[now.hi]}
  {
    InStretch(was);
    var ids, rest, last := was.slots[was.lo..was.hi], now.slots[now.lo..now.hi], was.slots[now.hi];
    assert ids == rest + [last];
    forall j | 0 <= j < |rest| ensures rest[j] != last {
      assert ids[j] == rest[j] && ids[|rest|] == last;
    }
    assert Members(ids) == Members(rest) + {last};
  }

  /** push_front with blocks of one element, before at least two others: one more block in front. */
  method PushOneInFront<T(==)>(d: Deque<T>, x: T)
    requires d.Valid() && d.blockSize == 1 && |d.Contents()| > 1 && d.slots.Length > 0
    modifies d, d.slots
    ensures d.slots == old(d.slots) || fresh(d.slots)
    ensures d.Valid() && Grew(old(d.Map()), d.Map(), 1, true, d.pick)
  {
    hide Deque.Valid, Deque.Contents, Deque.Owns, Grew, HeaderKeptIff;
    AtOffsetZero(d);
    OneBlock();
    ghost var base := d.PushFront(x);
  }

  /** Four blocks, all of them the lowest addresses. */
  method FourBlocks<T(==)>(x: T, selfMove: T -> Initialised<T>) returns (d: Deque<T>)
    ensures fresh(d) && fresh(d.slots) && d.Valid() && d.blockSize == 1 && d.pick == LOWEST_FIRST && |d.Contents()| == 3
    ensures ShapeOf(d.Map()) == Shape(8, 3, 7) && d.handed == 4 && d.blocks.Keys == {0, 1, 2, 3}
  {
    hide Deque.Valid, Deque.Contents, Deque.Owns, HandedOut, Sound;
    d := new Deque(1, selfMove, LOWEST_FIRST);
    FirstFour(d.pick);
    FirstPush(d, x);
    PushOne(d, x);
    PushOne(d, x);
  }

  /**
   Three elements pushed, one taken from the back, and one pushed in front: nothing is
   moved, but an allocator that hands out the lowest address revives the pointer that
   the block given up has left in the map.
   */
  method ReusingRevivesPointers<T(==)>(x: T, selfMove: T -> Initialised<T>)
    returns (d: Deque<T>, ghost before: MapState)
    ensures fresh(d) && d.Valid() && !OnlyStretchIsLive(d.Map())
    ensures ShapeOf(before) == Shape(8, 3, 6) && ShapeOf(d.Map()) == Shape(8, 2, 6)
    ensures d.slots[6] == before.slots[6] && before.slots[6] !in before.live && d.slots[6] in d.blocks
  {
    hide Deque.Valid, Deque.Contents, Deque.Owns, HandedOut, Sound, LeastUnused;
    d := FourBlocks(x, selfMove);
    ghost var four := d.Map();
    SoundMap(d);
    PopLastOne(d);
    before := d.Map();
    LastGivenUp(four, before);
    LeastOfFour(four.slots[6]);
    HandedOne(d.pick, 4, before.live);
    PushOneInFront(d, x);
    assert d.Map().live == before.live + {four.slots[6]};
    assert d.Map().slots[6] == before.slots[6];
  }

  lemma SoundMap<T>(d: Deque<T>)
    requires d.Valid()
    ensures Sound(d.Map())
  {
    hide Sound;
    d.ValidOwns();
    d.MapIsSound();
  }
}
