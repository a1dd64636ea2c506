/**
 The memory of a segmented deque: blocks of equal size, the map of pointers to
 them, and iterators that name a cell by map slot and offset.
 */
module DequeMemory {
  import opened Words

  /** Uninitialised storage, an object that has been moved from, or an object. */
  datatype Cell<+T> = Raw | Moved | Live(value: T)

  /** A cell that holds an object, if only one with an unknown value. */
  type Initialised<+T> = c: Cell<T> | !c.Raw? witness Moved

  type BlockId = nat

  type Blocks<T> = map<BlockId, seq<Cell<T>>>

  /** m_node is an index into the map, m_first the block found there, cur the offset m_cur - m_first. */
  datatype Iter = Iter(node: int, first: BlockId, cur: int)

  ghost predicate Distinct(ids: seq<BlockId>)
  {
    forall i, j | 0 <= i < j < |ids| :: ids[i] != ids[j]
  }

  ghost predicate BlocksOk<T>(blocks: Blocks<T>, ids: seq<BlockId>, size: nat)
  {
    forall i | 0 <= i < |ids| :: ids[i] in blocks && |blocks[ids[i]]| == size
  }

  ghost predicate Known<T>(blocks: Blocks<T>, ids: seq<BlockId>)
  {
    forall i | 0 <= i < |ids| :: ids[i] in blocks
  }

  /** The cells of the listed blocks, one after the other. */
  ghost function Flat<T>(blocks: Blocks<T>, ids: seq<BlockId>): seq<Cell<T>>
    requires Known(blocks, ids)
  {
    if ids == [] then [] else blocks[ids[0]] + Flat(blocks, ids[1..])
  }

  lemma MulStep(k: int, size: int)
    ensures (k + 1) * size == k * size + size
  {}

  lemma {:induction false} FlatLength<T>(blocks: Blocks<T>, ids: seq<BlockId>, size: nat)
    requires BlocksOk(blocks, ids, size)
    ensures |Flat(blocks, ids)| == |ids| * size
  {
    if ids != [] {
      FlatLength(blocks, ids[1..], size);
      MulStep(|ids| - 1, size);
    }
  }

  /** Cell number k * size + cur is cell cur of block k. */
  lemma {:induction false} FlatAt<T>(blocks: Blocks<T>, ids: seq<BlockId>, size: nat, k: nat, cur: nat)
    requires BlocksOk(blocks, ids, size) && k < |ids| && cur < size
    ensures 0 <= k * size + cur < |Flat(blocks, ids)|
    ensures Flat(blocks, ids)[k * size + cur] == blocks[ids[k]][cur]
  {
    FlatLength(blocks, ids, size);
    InRange(k, |ids|, size, cur);
    if k > 0 {
      FlatAt(blocks, ids[1..], size, k - 1, cur);
      MulStep(k - 1, size);
    }
  }

  lemma InRange(k: nat, n: nat, size: nat, cur: nat)
    requires k < n && cur < size
    ensures 0 <= k * size + cur < n * size
  {
    MulStep(k, size);
    MulMonotone(k + 1, n, size);
  }

  lemma MulAtMost(a: int, b: int, size: nat)
    ensures a <= b ==> a * size <= b * size
  {}

  lemma MulMonotone(a: int, b: int, size: nat)
    requires a <= b
    ensures a * size <= b * size
  {}

  /** Writing one cell of one block writes exactly that cell of the flat memory. */
  lemma {:induction false} FlatUpdate<T>(blocks: Blocks<T>, ids: seq<BlockId>, size: nat, k: nat, cur: nat, c: Cell<T>)
    requires BlocksOk(blocks, ids, size) && Distinct(ids) && k < |ids| && cur < size
    ensures var after := blocks[ids[k] := blocks[ids[k]][cur := c]];
      && BlocksOk(after, ids, size)
      && 0 <= k * size + cur < |Flat(blocks, ids)|
      && Flat(after, ids) == Flat(blocks, ids)[k * size + cur := c]
  {
    var after := blocks[ids[k] := blocks[ids[k]][cur := c]];
    FlatAt(blocks, ids, size, k, cur);
    if k == 0 {
      FlatSame(blocks, after, ids[1..]);
    } else {
      FlatUpdate(blocks, ids[1..], size, k - 1, cur, c);
      MulStep(k - 1, size);
      var rest := Flat(blocks, ids[1..]);
      assert after[ids[0]] == blocks[ids[0]];
      assert (blocks[ids[0]] + rest)[k * size + cur := c] == blocks[ids[0]] + rest[(k - 1) * size + cur := c];
    }
  }

  lemma {:induction false} FlatSame<T>(blocks: Blocks<T>, after: Blocks<T>, ids: seq<BlockId>)
    requires forall i | 0 <= i < |ids| :: ids[i] in blocks && ids[i] in after && blocks[ids[i]] == after[ids[i]]
    ensures Flat(blocks, ids) == Flat(after, ids)
  {
    if ids != [] { FlatSame(blocks, after, ids[1..]); }
  }

  lemma KnownConcat<T>(blocks: Blocks<T>, a: seq<BlockId>, b: seq<BlockId>)
    requires Known(blocks, a) && Known(blocks, b)
    ensures Known(blocks, a + b)
  {}

  lemma {:induction false} FlatConcat<T>(blocks: Blocks<T>, a: seq<BlockId>, b: seq<BlockId>)
    requires Known(blocks, a) && Known(blocks, b)
    ensures Known(blocks, a + b)
    ensures Flat(blocks, a + b) == Flat(blocks, a) + Flat(blocks, b)
  {
    KnownConcat(blocks, a, b);
    if a == [] {
      assert a + b == b;
    } else {
      assert Known(blocks, a[1..]);
      FlatConcat(blocks, a[1..], b);
      FlatFirst(blocks, a);
      FlatFirst(blocks, a + b);
      assert (a + b)[1..] == a[1..] + b;
    }
  }

  lemma FlatFirst<T>(blocks: Blocks<T>, ids: seq<BlockId>)
    requires Known(blocks, ids) && ids != []
    ensures Known(blocks, ids[1..]) && Flat(blocks, ids) == blocks[ids[0]] + Flat(blocks, ids[1..])
  {}

  ghost function Members(ids: seq<BlockId>): set<BlockId>
  {
    set id | id in ids
  }

  /** The live blocks are exactly the listed ones, each listed once, all of the same size. */
  ghost predicate Owned<T>(blocks: Blocks<T>, ids: seq<BlockId>, size: nat)
  {
    size > 0 && Distinct(ids) && BlocksOk(blocks, ids, size) && blocks.Keys == Members(ids)
  }

  lemma GrowFront<T>(blocks: Blocks<T>, ids: seq<BlockId>, size: nat, id: BlockId, cells: seq<Cell<T>>)
    requires Owned(blocks, ids, size) && id !in blocks && |cells| == size
    ensures Owned(blocks[id := cells], [id] + ids, size)
    ensures Flat(blocks[id := cells], [id] + ids) == cells + Flat(blocks, ids)
  {
    assert forall i | 0 <= i < |ids| :: ids[i] in blocks && id != ids[i];
    FlatSame(blocks, blocks[id := cells], ids);
    assert ([id] + ids)[1..] == ids;
    assert blocks[id := cells].Keys == Members([id] + ids);
  }

  lemma GrowBack<T>(blocks: Blocks<T>, ids: seq<BlockId>, size: nat, id: BlockId, cells: seq<Cell<T>>)
    requires Owned(blocks, ids, size) && id !in blocks && |cells| == size
    ensures Owned(blocks[id := cells], ids + [id], size)
    ensures Flat(blocks[id := cells], ids + [id]) == Flat(blocks, ids) + cells
  {
    assert forall i | 0 <= i < |ids| :: ids[i] in blocks && id != ids[i];
    var after := blocks[id := cells];
    FlatSame(blocks, after, ids);
    FlatConcat(after, ids, [id]);
    assert Flat(after, [id]) == cells;
    assert after.Keys == Members(ids + [id]);
  }

  lemma ShrinkFront<T>(blocks: Blocks<T>, id: BlockId, rest: seq<BlockId>, size: nat)
    requires Owned(blocks, [id] + rest, size)
    ensures Owned(blocks - {id}, rest, size)
    ensures |Flat(blocks, [id] + rest)| >= size
    ensures Flat(blocks - {id}, rest) == Flat(blocks, [id] + rest)[size..]
  {
    var ids := [id] + rest;
    WithoutOne(blocks, ids, size, 0, rest, (i: nat) => i + 1);
    FlatSame(blocks, blocks - {id}, rest);
    assert ids[1..] == rest;
  }

  lemma ShrinkBack<T>(blocks: Blocks<T>, id: BlockId, rest: seq<BlockId>, size: nat)
    requires Owned(blocks, rest + [id], size)
    ensures Owned(blocks - {id}, rest, size)
    ensures |Flat(blocks, rest + [id])| >= size
    ensures Flat(blocks - {id}, rest) == Flat(blocks, rest + [id])[..|Flat(blocks, rest + [id])| - size]
  {
    var ids := rest + [id];
    WithoutOne(blocks, ids, size, |rest|, rest, (i: nat) => i);
    assert Known(blocks, ids) && ids[..|rest|] == rest;
    hide Distinct, BlocksOk, Owned, Flat, Known;
    FlatSame(blocks, blocks - {id}, rest);
    FlatLast(blocks, ids);
  }

  lemma OwnedLength<T>(blocks: Blocks<T>, ids: seq<BlockId>, size: nat)
    requires Owned(blocks, ids, size)
    ensures |Flat(blocks, ids)| == Span(|ids|, size)
  {
    FlatLength(blocks, ids, size);
  }

  /** Freeing the first k blocks leaves the cells of the others. */
  lemma {:induction false} ShrinkFrontBy<T>(blocks: Blocks<T>, ids: seq<BlockId>, size: nat, k: nat)
    requires Owned(blocks, ids, size) && k <= |ids|
    ensures Owned(blocks - Members(ids[..k]), ids[k..], size)
    ensures 0 <= Span(k, size) <= |Flat(blocks, ids)|
    ensures Flat(blocks - Members(ids[..k]), ids[k..]) == Flat(blocks, ids)[Span(k, size)..]
  {
    hide Owned, Flat, Span;
    if k == 0 {
      SpanStep(0, size);
      assert blocks - Members(ids[..0]) == blocks && ids[0..] == ids;
    } else {
      var id, rest := ids[0], ids[1..];
      assert ids == [id] + rest;
      ShrinkFront(blocks, id, rest, size);
      ShrinkFrontBy(blocks - {id}, rest, size, k - 1);
      SpanStep(k - 1, size);
      assert (blocks - {id}) - Members(rest[..k - 1]) == blocks - Members(ids[..k]) by {
        assert ids[..k] == [id] + rest[..k - 1];
      }
      assert rest[k - 1..] == ids[k..];
    }
  }

  /** Freeing all blocks from the k-th on leaves the cells of the k before. */
  lemma {:induction false} ShrinkBackTo<T>(blocks: Blocks<T>, ids: seq<BlockId>, size: nat, k: nat)
    requires Owned(blocks, ids, size) && k <= |ids|
    ensures Owned(blocks - Members(ids[k..]), ids[..k], size)
    ensures 0 <= Span(k, size) <= |Flat(blocks, ids)|
    ensures Flat(blocks - Members(ids[k..]), ids[..k]) == Flat(blocks, ids)[..Span(k, size)]
    decreases |ids| - k
  {
    hide Owned, Flat, Span;
    if k == |ids| {
      OwnedLength(blocks, ids, size);
      assert blocks - Members(ids[k..]) == blocks && ids[..k] == ids;
    } else {
      var id, rest := ids[|ids| - 1], ids[..|ids| - 1];
      assert ids == rest + [id];
      ShrinkBack(blocks, id, rest, size);
      ShrinkBackTo(blocks - {id}, rest, size, k);
      assert (blocks - {id}) - Members(rest[k..]) == blocks - Members(ids[k..]) by {
        assert ids[k..] == rest[k..] + [id];
      }
      assert rest[..k] == ids[..k];
    }
  }

  /** Freeing the block in slot k leaves the other slots with the blocks they had. */
  lemma WithoutOne<T>(blocks: Blocks<T>, ids: seq<BlockId>, size: nat, k: nat, rest: seq<BlockId>, from: nat -> nat)
    requires Owned(blocks, ids, size) && k < |ids| && |rest| == |ids| - 1
    requires forall i: nat | i < |rest| :: from(i) < |ids| && from(i) != k && rest[i] == ids[from(i)]
    requires forall i: nat, j: nat | i < j :: from(i) < from(j)
    requires forall i: nat | i < |ids| && i != k :: ids[i] in rest
    ensures Owned(blocks - {ids[k]}, rest, size) && Known(blocks, rest)
    ensures |blocks[ids[k]]| == size
    ensures forall i | 0 <= i < |rest| ::
      rest[i] in blocks - {ids[k]} && blocks[rest[i]] == (blocks - {ids[k]})[rest[i]]
  {
    var after := blocks - {ids[k]};
    forall i: nat | i < |rest| ensures rest[i] in after && |after[rest[i]]| == size {
      assert rest[i] == ids[from(i)] != ids[k];
    }
    assert after.Keys == Members(rest);
  }

  /** However many blocks are live, there is an unused address. */
  lemma UnusedExists<T>(blocks: Blocks<T>)
    ensures exists id: BlockId :: id !in blocks
  {
    var bound := Above(blocks.Keys);
    assert bound !in blocks.Keys;
  }

  ghost function Above(ids: set<BlockId>): (bound: BlockId)
    ensures forall id | id in ids :: id < bound
  {
    if ids == {} then 0 else
      var id :| id in ids;
      assert forall x | x in ids :: x == id || x in ids - {id};
      Max(id + 1, Above(ids - {id}))
  }

  lemma FlatLast<T>(blocks: Blocks<T>, ids: seq<BlockId>)
    requires Known(blocks, ids) && ids != []
    ensures Known(blocks, ids[..|ids| - 1])
    ensures Flat(blocks, ids) == Flat(blocks, ids[..|ids| - 1]) + blocks[ids[|ids| - 1]]
  {
    var rest, id := ids[..|ids| - 1], ids[|ids| - 1];
    assert ids == rest + [id];
    FlatConcat(blocks, rest, [id]);
    assert [id][1..] == [];
    assert Flat(blocks, [id]) == blocks[id];
  }

  function RawCells<T>(n: nat): (s: seq<Cell<T>>)
    ensures |s| == n && forall i | 0 <= i < n :: s[i] == Raw
  {
    seq(n, _ => Raw)
  }

  // ---------------------------------------------------------------- iterators

  /** priv_set_node. */
  function SetNode(it: Iter, slots: seq<BlockId>, node: int): Iter
    requires 0 <= node < |slots|
  {
    Iter(node, slots[node], it.cur)
  }

  /** How many map slots an offset that leaves the block moves by: floor division, spelled out. */
  function NodeOffset(offset: int, size: nat): (r: int)
    requires size > 0 && !(0 <= offset < size)
    ensures 0 <= offset - r * size < size
  {
    if offset > 0 then
      DivisionParts(offset, size);
      offset / size
    else
      DivisionParts(-offset - 1, size);
      var q := (-offset - 1) / size;
      assert -q - 1 == -(q + 1) && (-q - 1) * size == -(q * size) - size;
      -q - 1
  }

  lemma DivisionParts(m: nat, d: nat)
    requires d > 0
    ensures m / d * d <= m < m / d * d + d
  {}

  /** The cells of k blocks. */
  function Span(k: int, size: nat): int { k * size }

  lemma SpanStep(k: int, size: nat)
    ensures Span(k + 1, size) == Span(k, size) + size && Span(0, size) == 0
  {
    MulStep(k, size);
  }

  lemma SpanNegated(k: int, size: nat)
    ensures -k * size == -Span(k, size)
  {
    ShiftProduct(0, k, size);
  }

  /** How many blocks m more cells take: enough, and not one too many. */
  function BlocksFor(m: nat, size: nat): (k: nat)
    requires size > 0
    ensures m <= Span(k, size) < m + size
  {
    DivisionParts(m + size - 1, size);
    (m + size - 1) / size
  }

  lemma RawNone<T>(rest: seq<Cell<T>>)
    ensures RawCells<T>(0) + rest == rest == rest + RawCells<T>(0)
  {}

  lemma RawBefore<T>(a: nat, b: nat, rest: seq<Cell<T>>)
    ensures RawCells<T>(a) + (RawCells<T>(b) + rest) == RawCells<T>(b + a) + rest
  {}

  lemma RawAfter<T>(a: nat, b: nat, rest: seq<Cell<T>>)
    ensures (rest + RawCells<T>(a)) + RawCells<T>(b) == rest + RawCells<T>(a + b)
  {}

  /** Where iterator addition leads: the slot it reads must exist. */
  function PlusNode(it: Iter, n: int, size: nat): int
    requires size > 0
  {
    var offset := n + it.cur;
    if n == 0 || 0 <= offset < size then it.node else it.node + NodeOffset(offset, size)
  }

  /** operator+= */
  function Plus(it: Iter, n: int, size: nat, slots: seq<BlockId>): Iter
    requires size > 0 && 0 <= PlusNode(it, n, size) < |slots|
  {
    var offset := n + it.cur;
    if n == 0 then it
    else if 0 <= offset < size then it.(cur := it.cur + n)
    else
      var nodeOffset := NodeOffset(offset, size);
      SetNode(it, slots, it.node + nodeOffset).(cur := offset - nodeOffset * size)
  }

  /** operator- between iterators. */
  function Minus(a: Iter, b: Iter, size: nat): int
  {
    size * (a.node - b.node - 1) + a.cur + (size - b.cur)
  }

  /** operator++ */
  function Next(it: Iter, size: nat, slots: seq<BlockId>): Iter
    requires it.cur + 1 == size ==> 0 <= it.node + 1 < |slots|
  {
    if it.cur + 1 == size then SetNode(it, slots, it.node + 1).(cur := 0) else it.(cur := it.cur + 1)
  }

  /** operator-- */
  function Prev(it: Iter, size: nat, slots: seq<BlockId>): Iter
    requires it.cur == 0 ==> 0 <= it.node - 1 < |slots|
  {
    if it.cur == 0 then SetNode(it, slots, it.node - 1).(cur := size - 1) else it.(cur := it.cur - 1)
  }

  /** The cell number an iterator stands for, counted from map slot 0. */
  function Position(it: Iter, size: nat): int
  {
    it.node * size + it.cur
  }

  /** Every class invariant of an iterator: it names a slot's block and a cell inside it. */
  predicate Points(it: Iter, size: nat, slots: seq<BlockId>)
  {
    0 <= it.node < |slots| && it.first == slots[it.node] && 0 <= it.cur < size
  }

  /** Adding n moves n cells, forwards or backwards, across any number of blocks. */
  lemma PlusMovesBy(it: Iter, n: int, size: nat, slots: seq<BlockId>)
    requires size > 0 && Points(it, size, slots)
    requires 0 <= Position(it, size) + n < |slots| * size
    ensures 0 <= PlusNode(it, n, size) < |slots|
    ensures Points(Plus(it, n, size, slots), size, slots)
    ensures Position(Plus(it, n, size, slots), size) == Position(it, size) + n
  {
    var offset := n + it.cur;
    if n != 0 && !(0 <= offset < size) {
      var k := NodeOffset(offset, size);
      var cur := offset - k * size;
      Distribute(it.node, k, size);
      assert (it.node + k) * size + cur == it.node * size + offset;
      SlotOf(it.node + k, cur, |slots|, size);
    }
  }

  lemma ShiftProduct(a: int, b: int, size: int)
    ensures (a - b) * size == a * size - b * size
  {}

  lemma Distribute(a: int, b: int, size: int)
    ensures (a + b) * size == a * size + b * size
  {}

  /** A cell inside the memory lies in a slot inside the map. */
  lemma SlotOf(k: int, cur: int, n: nat, size: nat)
    requires 0 <= cur < size && 0 <= k * size + cur < n * size
    ensures 0 <= k < n
  {
    MulAtMost(k, -1, size);
    MulAtMost(n, k, size);
  }

  /** Subtraction counts the cells between. */
  lemma MinusCounts(a: Iter, b: Iter, size: nat)
    ensures Minus(a, b, size) == Position(a, size) - Position(b, size)
  {
    Distribute(a.node, -b.node - 1, size);
    Distribute(-b.node, -1, size);
    assert size * (a.node - b.node - 1) == (a.node + (-b.node - 1)) * size;
  }

  lemma NextMovesByOne(it: Iter, size: nat, slots: seq<BlockId>)
    requires size > 0 && Points(it, size, slots)
    requires Position(it, size) + 1 < |slots| * size
    ensures it.cur + 1 == size ==> it.node + 1 < |slots|
    ensures Points(Next(it, size, slots), size, slots)
    ensures Position(Next(it, size, slots), size) == Position(it, size) + 1
  {
    MulStep(it.node, size);
    if it.cur + 1 == size { SlotOf(it.node + 1, 0, |slots|, size); }
  }

  lemma PrevMovesByOne(it: Iter, size: nat, slots: seq<BlockId>)
    requires size > 0 && Points(it, size, slots)
    requires 0 < Position(it, size)
    ensures it.cur == 0 ==> 0 < it.node
    ensures Points(Prev(it, size, slots), size, slots)
    ensures Position(Prev(it, size, slots), size) == Position(it, size) - 1
  {
    MulStep(it.node - 1, size);
  }

  /** Adding a difference leads to the other iterator. */
  lemma PlusMinusRoundTrip(a: Iter, b: Iter, size: nat, slots: seq<BlockId>)
    requires size > 0 && Points(a, size, slots) && Points(b, size, slots)
    ensures 0 <= PlusNode(a, Minus(b, a, size), size) < |slots|
    ensures Plus(a, Minus(b, a, size), size, slots) == b
  {
    MinusCounts(b, a, size);
    InRange(b.node, |slots|, size, b.cur);
    PlusMovesBy(a, Minus(b, a, size), size, slots);
    SamePosition(Plus(a, Minus(b, a, size), size, slots), b, size);
  }

  lemma SamePosition(a: Iter, b: Iter, size: nat)
    requires 0 <= a.cur < size && 0 <= b.cur < size && Position(a, size) == Position(b, size)
    ensures a.node == b.node && a.cur == b.cur
  {
    if a.node < b.node {
      MulMonotone(a.node + 1, b.node, size);
      MulStep(a.node, size);
    }
    if b.node < a.node {
      MulMonotone(b.node + 1, a.node, size);
      MulStep(b.node, size);
    }
  }
}
