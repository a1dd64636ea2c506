/** The segmented deque: its blocks, its map, its two ends, and the operations that change them in place. */
module SegmentedDeque {
  import opened Words
  import opened DequeMemory
  import opened DequeCells
  import opened DequeMap

  /** The map after its n used slots have been moved from first to dest: a moved-from slot keeps its pointer. */
  function MapMoved(slots: seq<BlockId>, first: nat, n: nat, dest: nat): (r: seq<BlockId>)
    requires first + n <= |slots| && dest + n <= |slots|
    ensures |r| == |slots|
  {
    Spliced(slots, dest, slots[first..first + n])
  }

  /** A sequence with part written over it from position dest on. */
  function Spliced(slots: seq<BlockId>, dest: nat, part: seq<BlockId>): (r: seq<BlockId>)
    requires dest + |part| <= |slots|
    ensures |r| == |slots| && r[dest..dest + |part|] == part
  {
    slots[..dest] + part + slots[dest + |part|..]
  }

  ghost predicate MovedInPlace(before: seq<BlockId>, first: int, n: int, dest: int, after: seq<BlockId>)
  {
    && 0 <= first <= first + n <= |before| && 0 <= dest <= dest + n <= |before|
    && after == MapMoved(before, first, n, dest)
  }

  /** boost::container::move over map slots: n pointers from first on, lowest first. */
  method MoveSlotsUp(src: array<BlockId>, first: nat, n: nat, dst: array<BlockId>, dest: nat)
    requires first + n <= src.Length && dest + n <= dst.Length
    requires src != dst || dest < first
    modifies dst
    ensures dst[..] == Spliced(old(dst[..]), dest, old(src[first..first + n]))
  {
    var i := 0;
    while i < n
      invariant 0 <= i <= n
      invariant forall k | 0 <= k < dst.Length ::
        dst[k] == if dest <= k < dest + i then old(src[first + k - dest]) else old(dst[k])
    {
      dst[dest + i] := src[first + i];
      i := i + 1;
    }
  }

  /** move_backward over map slots: the same, highest first. */
  method MoveSlotsDown(a: array<BlockId>, first: nat, n: nat, dest: nat)
    requires first + n <= a.Length && dest + n <= a.Length && first <= dest
    modifies a
    ensures a[..] == MapMoved(old(a[..]), first, n, dest)
  {
    var i := n;
    while i > 0
      invariant 0 <= i <= n
      invariant forall k | 0 <= k < a.Length ::
        a[k] == if dest + i <= k < dest + n then old(a[first + k - dest]) else old(a[k])
    {
      i := i - 1;
      a[dest + i] := a[first + i];
    }
  }

  lemma MovedKeepsOutside(before: seq<BlockId>, first: nat, n: nat, dest: nat, after: seq<BlockId>)
    requires MovedInPlace(before, first, n, dest, after)
    ensures SameOutside(before, after, dest, dest + n)
  {}

  lemma SplitSlice(ids: seq<BlockId>, from: nat, mid: nat, to: nat)
    requires from <= mid <= to <= |ids|
    ensures ids[from..mid] == ids[from..to][..mid - from] && ids[mid..to] == ids[from..to][mid - from..]
  {}

  /** In either direction, so that no slot is overwritten before it has been read. */
  method MoveSlots(a: array<BlockId>, first: nat, n: nat, dest: nat)
    requires first + n <= a.Length && dest + n <= a.Length
    modifies a
    ensures MovedInPlace(old(a[..]), first, n, dest, a[..])
    ensures a[..][dest..dest + n] == old(a[..])[first..first + n]
  {
    hide Spliced;
    if dest < first {
      MoveSlotsUp(a, first, n, a, dest);
    } else {
      MoveSlotsDown(a, first, n, dest);
    }
  }

  lemma SliceBefore(ids: seq<BlockId>, at: nat, hi: nat, id: BlockId)
    requires at < hi <= |ids|
    ensures ids[at := id][at..hi] == [id] + ids[at + 1..hi]
  {}

  lemma SlotsAt(slots: seq<BlockId>, from: nat, ids: seq<BlockId>)
    requires from + |ids| <= |slots| && slots[from..from + |ids|] == ids && ids != []
    ensures slots[from] == ids[0] && slots[from + |ids| - 1] == ids[|ids| - 1]
  {}

  /** it stands for cell v, counted from slot lo of a map. */
  ghost predicate Stands(ids: seq<BlockId>, lo: int, hi: int, size: nat, it: Iter, v: int)
  {
    0 <= lo <= it.node < hi <= |ids| && it.first == ids[it.node] && 0 <= it.cur < size
      && v == (it.node - lo) * size + it.cur
  }

  class Deque<T(==)> {
    const blockSize: nat

    /** What an element assigned to itself by move is left as; for a plain number, itself. */
    const selfMove: T -> Initialised<T>

    /** Which addresses the allocator hands out. */
    const pick: Allocator

    var slots: array<BlockId>
    var start: Iter
    var finish: Iter
    var blocks: Blocks<T>
    var handed: nat

    /** The stretch of map slots that own a block; between operations, start.node to finish.node. */
    ghost var lo: nat
    ghost var hi: nat

    /** An empty deque has no map. */
    constructor (size: nat, selfMove: T -> Initialised<T>, pick: Allocator)
      requires size > 0
      ensures Valid() && Contents() == [] && fresh(slots) && slots.Length == 0 && handed == 0
      ensures blockSize == size && this.selfMove == selfMove && this.pick == pick
    {
      blockSize, this.selfMove, this.pick, handed := size, selfMove, pick, 0;
      slots := new BlockId[0];
      start, finish := Iter(0, 0, 0), Iter(0, 0, 0);
      blocks := map[];
      lo, hi := 0, 0;
    }

    /** The state of the map. */
    ghost function Map(): MapState
      reads `lo, `hi, `slots, slots, `blocks, `handed
    {
      MapState(slots[..], lo, hi, blocks.Keys, handed)
    }

    lemma MapIsSound()
      requires Owns()
      ensures Sound(Map()) && Map() == MapState(slots[..], lo, hi, Members(slots[lo..hi]), handed)
    {
      assert slots[..][lo..hi] == slots[lo..hi];
    }

    /** The blocks of the stretch, in order. */
    ghost function Used(): (ids: seq<BlockId>)
      requires lo <= hi <= slots.Length
      reads `lo, `hi, `slots, slots
      ensures |ids| == hi - lo
    {
      slots[lo..hi]
    }

    /** Every live block is in exactly one slot of the stretch, and every slot of it has one. */
    ghost predicate Owns()
      reads `lo, `hi, `blocks, `slots, slots
    {
      lo <= hi <= slots.Length && Owned(blocks, Used(), blockSize)
    }

    /** All cells of the owned blocks, in order. */
    ghost function Mem(): seq<Cell<T>>
      requires Owns()
      reads `lo, `hi, `blocks, `slots, slots
    {
      Flat(blocks, Used())
    }

    ghost predicate Inside(it: Iter)
      reads `lo, `hi, `slots, slots
    {
      hi <= slots.Length && lo <= it.node < hi && it.first == slots[it.node] && 0 <= it.cur < blockSize
    }

    /** The number of an iterator's cell among the owned cells. */
    ghost function At(it: Iter): int
      reads `lo
    {
      (it.node - lo) * blockSize + it.cur
    }

    lemma CellAt(it: Iter)
      requires Owns() && Inside(it)
      ensures 0 <= At(it) < |Mem()|
      ensures it.first in blocks && it.cur < |blocks[it.first]| && Mem()[At(it)] == blocks[it.first][it.cur]
      ensures |Mem()| == (hi - lo) * blockSize
    {
      ghost var ids := Used();
      assert ids[it.node - lo] == slots[it.node];
      FlatAt(blocks, ids, blockSize, it.node - lo, it.cur);
      FlatLength(blocks, ids, blockSize);
    }

    /** it points to owned cell number v. */
    ghost predicate Is(it: Iter, v: int)
      reads `lo, `hi, `slots, slots
    {
      Inside(it) && At(it) == v
    }

    lemma IsStands(it: Iter, v: int)
      requires Owns() && Is(it, v)
      ensures Stands(slots[..], lo, hi, blockSize, it, v)
      ensures 0 <= lo <= it.node < hi <= slots.Length && it.first == slots[it.node]
    {}

    /** An iterator whose slot is still owned and unchanged keeps its cell, d blocks further on. */
    lemma StillIs(it: Iter, v: int, d: int, ids: seq<BlockId>, oldLo: int, oldHi: int)
      requires Stands(ids, oldLo, oldHi, blockSize, it, v)
      requires lo <= it.node < hi <= slots.Length && slots[it.node] == ids[it.node] && oldLo == lo + d
      ensures Is(it, v + d * blockSize)
    {
      Distribute(it.node - oldLo, d, blockSize);
    }

    lemma IsInMem(it: Iter, v: int)
      requires Owns() && Is(it, v)
      ensures 0 <= v < |Mem()|
    {
      CellAt(it);
    }

    /** Writes one cell. */
    method Put(it: Iter, ghost v: nat, c: Cell<T>)
      requires Owns() && Is(it, v)
      modifies `blocks
      ensures Owns() && v < |old(Mem())| && Mem() == old(Mem())[v := c]
    {
      hide BlocksOk, DequeMemory.Distinct, Flat, Members, Owns, Mem, Used;
      Owner();
      ghost var ids := Used();
      CellAt(it);
      assert ids[it.node - lo] == slots[it.node];
      assert BlocksOk(blocks, ids, blockSize) && DequeMemory.Distinct(ids) && blocks.Keys == Members(ids);
      FlatUpdate(blocks, ids, blockSize, it.node - lo, it.cur, c);
      blocks := blocks[it.first := blocks[it.first][it.cur := c]];
      assert blocks.Keys == old(blocks.Keys);
      Owning(ids);
    }

    /** Reads one cell, which must be initialised. */
    method Get(it: Iter, ghost v: nat) returns (c: Cell<T>)
      requires Owns() && Is(it, v) && v < |Mem()| && Mem()[v] != Raw
      ensures c == Mem()[v]
    {
      hide Owned;
      CellAt(it);
      c := blocks[it.first][it.cur];
    }

    lemma AtIsPosition(it: Iter)
      ensures At(it) == Position(it, blockSize) - lo * blockSize
    {
      ShiftProduct(it.node, lo, blockSize);
    }

    lemma InsideFromAt(it: Iter)
      requires Owns() && Points(it, blockSize, slots[..]) && 0 <= At(it) < |Mem()|
      ensures Inside(it)
    {
      FlatLength(blocks, Used(), blockSize);
      SlotOf(it.node - lo, it.cur, hi - lo, blockSize);
    }

    lemma MemFitsMap()
      requires Owns()
      ensures |Mem()| == (hi - lo) * blockSize && lo * blockSize + |Mem()| <= slots.Length * blockSize
    {
      FlatLength(blocks, Used(), blockSize);
      ShiftProduct(hi, lo, blockSize);
      MulMonotone(hi, slots.Length, blockSize);
    }

    /** it + n, for a target among the owned cells. */
    method Add(it: Iter, n: int, ghost v: int) returns (r: Iter)
      requires Owns() && Is(it, v) && 0 <= v + n < |Mem()|
      ensures Is(r, v + n)
    {
      hide Owned;
      MemFitsMap();
      AtIsPosition(it);
      MulMonotone(0, lo, blockSize);
      PlusMovesBy(it, n, blockSize, slots[..]);
      r := Plus(it, n, blockSize, slots[..]);
      AtIsPosition(r);
      InsideFromAt(r);
    }

    /** ++it */
    method Forward(it: Iter, ghost v: int) returns (r: Iter)
      requires Owns() && Is(it, v) && v + 1 < |Mem()|
      ensures Is(r, v + 1)
    {
      hide Owned;
      NextIs(it, v);
      hide Owns, Points, Mem, At, Next;
      r := Next(it, blockSize, slots[..]);
      InsideFromAt(r);
    }

    lemma NextIs(it: Iter, v: int)
      requires Owns() && Is(it, v) && v + 1 < |Mem()|
      ensures it.cur + 1 == blockSize ==> 0 <= it.node + 1 < slots.Length
      ensures Points(Next(it, blockSize, slots[..]), blockSize, slots[..])
      ensures 0 <= At(Next(it, blockSize, slots[..])) == v + 1
    {
      IsInMem(it, v);
      MemFitsMap();
      AtIsPosition(it);
      NextMovesByOne(it, blockSize, slots[..]);
      AtIsPosition(Next(it, blockSize, slots[..]));
    }

    /** --it */
    method Backward(it: Iter, ghost v: int) returns (r: Iter)
      requires Owns() && Is(it, v) && 0 < v
      ensures Is(r, v - 1)
    {
      hide Owned;
      PrevIs(it, v);
      hide Owns, Points, Mem, At, Prev;
      r := Prev(it, blockSize, slots[..]);
      InsideFromAt(r);
    }

    lemma PrevIs(it: Iter, v: int)
      requires Owns() && Is(it, v) && 0 < v
      ensures it.cur == 0 ==> 0 <= it.node - 1 < slots.Length
      ensures Points(Prev(it, blockSize, slots[..]), blockSize, slots[..])
      ensures At(Prev(it, blockSize, slots[..])) == v - 1 < |Mem()|
    {
      IsInMem(it, v);
      AtIsPosition(it);
      MulMonotone(0, lo, blockSize);
      PrevMovesByOne(it, blockSize, slots[..]);
      AtIsPosition(Prev(it, blockSize, slots[..]));
    }

    /** it - other */
    method Distance(it: Iter, other: Iter, ghost v: int, ghost w: int) returns (d: int)
      requires Owns() && Is(it, v) && Is(other, w)
      ensures d == v - w
    {
      MinusCounts(it, other, blockSize);
      AtIsPosition(it);
      AtIsPosition(other);
      d := Minus(it, other, blockSize);
    }

    /** Iterators are compared by the cell they point to. */
    predicate Same(a: Iter, b: Iter)
    {
      a.first == b.first && a.cur == b.cur
    }

    lemma SameIsAt(a: Iter, b: Iter, v: int, w: int)
      requires Owns() && Is(a, v) && Is(b, w)
      ensures Same(a, b) <==> v == w
    {
      ghost var ids := Used();
      assert ids[a.node - lo] == slots[a.node] && ids[b.node - lo] == slots[b.node];
      if v == w {
        AtIsPosition(a);
        AtIsPosition(b);
        SamePosition(a, b, blockSize);
      }
    }

    // ---------------------------------------------------------------- loops over cells

    /** Moves an object: constructs the target when it is raw, assigns to it otherwise. */
    method MoveCell(src: Iter, dst: Iter, raw: bool, ghost s: nat, ghost d: nat)
      requires Owns() && Is(src, s) && Is(dst, d) && s < |Mem()| && d < |Mem()| && Mem()[s] != Raw
      requires raw <==> Mem()[d] == Raw
      modifies `blocks
      ensures Owns()
      ensures Mem() == if s == d then old(Mem())[s := SelfMoved(old(Mem())[s], selfMove)]
                       else old(Mem())[s := Moved][d := old(Mem())[s]]
    {
      hide Owned, Owns, Is, Mem, SelfMoved;
      SameIsAt(src, dst, s, d);
      var c := Get(src, s);
      if Same(src, dst) {
        Put(src, s, SelfMoved(c, selfMove));
      } else {
        Put(src, s, Moved);
        Put(dst, d, c);
      }
    }

    /** uninitialized_move_alloc (raw) and move: the n objects from first on go to dest on, lowest first. */
    method MoveUp(first: Iter, last: Iter, dest: Iter, raw: bool, ghost s: nat, ghost n: nat, ghost d: nat)
      requires Owns() && Is(first, s) && Is(last, s + n) && Is(dest, d)
      requires d <= s || s + n <= d
      requires s + n <= |Mem()| && d + n < |Mem()| && NoneRaw(Mem(), s, s + n)
      requires if raw then AllRaw(Mem(), d, d + n) else NoneRaw(Mem(), d, d + n)
      modifies `blocks
      ensures Owns() && Mem() == Relocated(old(Mem()), s, n, d, selfMove)
    {
      hide Owned, Owns, Is, Mem, Relocated;
      var src, dst := first, dest;
      IsInMem(last, s + n);
      ghost var m := Mem();
      ghost var j := 0;
      RelocatedNone(m, s, d, selfMove);
      SameIsAt(src, last, s, s + n);
      while !Same(src, last)
        invariant 0 <= j <= n && Owns() && Is(src, s + j) && Is(dst, d + j) && Is(last, s + n)
        invariant Same(src, last) <==> j == n
        invariant Mem() == Relocated(m, s, j, d, selfMove)
        decreases n - j
      {
        RelocateNext(m, s, j, d, selfMove);
        NextTarget(m, s, n, d, j, raw, selfMove);
        MoveCell(src, dst, raw, s + j, d + j);
        src := Forward(src, s + j);
        dst := Forward(dst, d + j);
        j := j + 1;
        SameIsAt(src, last, s + j, s + n);
      }
    }

    /** move_backward: the n objects before last go to the n cells before destEnd, highest first. */
    method MoveDown(first: Iter, last: Iter, destEnd: Iter, ghost s: nat, ghost n: nat, ghost d: nat)
      requires Owns() && Is(first, s) && Is(last, s + n) && Is(destEnd, d + n) && s <= d
      requires s + n <= |Mem()| && d + n <= |Mem()| && NoneRaw(Mem(), s, s + n)
      requires NoneRaw(Mem(), d, d + n)
      modifies `blocks
      ensures Owns() && Mem() == Relocated(old(Mem()), s, n, d, selfMove)
    {
      hide Owned, Owns, Is, Mem, Relocated;
      var src, dst := last, destEnd;
      ghost var m := Mem();
      ghost var j := 0;
      RelocatedNone(m, s + n, d + n, selfMove);
      SameIsAt(first, src, s, s + n);
      while !Same(first, src)
        invariant 0 <= j <= n && Owns() && Is(src, s + n - j) && Is(dst, d + n - j) && Is(first, s)
        invariant Same(first, src) <==> j == n
        invariant Mem() == Relocated(m, s + n - j, j, d + n - j, selfMove)
        decreases n - j
      {
        RelocatePrevious(m, s + n - j, j, d + n - j, selfMove);
        PreviousTarget(m, s, n, d, j, selfMove);
        src := Backward(src, s + n - j);
        dst := Backward(dst, d + n - j);
        MoveCell(src, dst, false, s + n - j - 1, d + n - j - 1);
        j := j + 1;
        SameIsAt(first, src, s, s + n - j);
      }
    }

    /** Copies a value into a raw cell or over an object. */
    method CopyCell(dst: Iter, x: T, raw: bool, ghost d: nat)
      requires Owns() && Is(dst, d) && d < |Mem()| && (raw <==> Mem()[d] == Raw)
      modifies `blocks
      ensures Owns() && Mem() == old(Mem())[d := Live(x)]
    {
      Put(dst, d, Live(x));
    }

    /** The insertion proxy: copies values into raw cells or over objects, one after the other. */
    method CopyIn(dest: Iter, xs: seq<T>, raw: bool, ghost d: nat)
      requires Owns() && Is(dest, d) && d + |xs| < |Mem()|
      requires if raw then AllRaw(Mem(), d, d + |xs|) else NoneRaw(Mem(), d, d + |xs|)
      modifies `blocks
      ensures Owns() && Mem() == Filled(old(Mem()), d, xs)
    {
      hide Owned, Owns, Is, Mem, Filled;
      var dst := dest;
      ghost var m := Mem();
      var j := 0;
      FilledNone(m, d);
      assert xs[..0] == [];
      while j < |xs|
        invariant 0 <= j <= |xs| && Owns() && Is(dst, d + j)
        invariant Mem() == Filled(m, d, xs[..j])
      {
        FillNext(m, d, xs[..j], xs[j]);
        assert xs[..j + 1] == xs[..j] + [xs[j]];
        CopyCell(dst, xs[j], raw, d + j);
        dst := Forward(dst, d + j);
        j := j + 1;
      }
      assert xs[..j] == xs;
    }

    /** Ends the lifetime of one object. */
    method DestroyCell(it: Iter, ghost v: nat)
      requires Owns() && Is(it, v) && v < |Mem()| && Mem()[v] != Raw
      modifies `blocks
      ensures Owns() && Mem() == old(Mem())[v := Raw]
    {
      Put(it, v, Raw);
    }

    /** priv_destroy_range: ends the lifetime of every object in [first, last). */
    method DestroyRange(first: Iter, last: Iter, ghost a: nat, ghost b: nat)
      requires Owns() && Is(first, a) && Is(last, b) && a <= b <= |Mem()|
      requires NoneRaw(Mem(), a, b)
      modifies `blocks
      ensures Owns() && Mem() == Cleared(old(Mem()), a, b)
    {
      hide Owned, Owns, Is, Mem, Cleared;
      var p := first;
      IsInMem(last, b);
      ghost var m := Mem();
      ghost var j := a;
      ClearedNone(m, a);
      SameIsAt(p, last, a, b);
      while !Same(p, last)
        invariant a <= j <= b && Owns() && Is(p, j) && Is(last, b)
        invariant Same(p, last) <==> j == b
        invariant Mem() == Cleared(m, a, j)
        decreases b - j
      {
        ClearNext(m, a, j);
        DestroyCell(p, j);
        p := Forward(p, j);
        j := j + 1;
        SameIsAt(p, last, j, b);
      }
    }

    // ---------------------------------------------------------------- blocks and the map

    /** priv_allocate_node: any address not in use. */
    method AllocateNode() returns (id: BlockId)
      modifies `blocks, `handed
      ensures id == pick(old(handed), old(blocks.Keys)) && handed == old(handed) + 1
      ensures id !in old(blocks) && blocks == old(blocks)[id := RawCells(blockSize)]
    {
      id := pick(handed, blocks.Keys);
      blocks := blocks[id := RawCells(blockSize)];
      handed := handed + 1;
    }

    /** What owning the blocks ids in the stretch amounts to. */
    lemma Owning(ids: seq<BlockId>)
      requires lo <= hi <= slots.Length && slots[lo..hi] == ids && Owned(blocks, ids, blockSize)
      ensures Owns() && Mem() == Flat(blocks, ids)
    {}

    lemma Owner()
      requires Owns()
      ensures lo <= hi <= slots.Length && |Used()| == hi - lo && Used() == slots[lo..hi]
        && Owned(blocks, Used(), blockSize)
      ensures Mem() == Flat(blocks, Used())
    {}

    /** The allocator has been asked once more. */
    ghost predicate HandedOneMore(live: set<BlockId>, n: nat)
      reads `blocks, `handed
    {
      handed == n + 1 && blocks.Keys == live + {pick(n, live)}
    }

    /** One more block in front. */
    method NewFirst(at: nat)
      requires Owns() && at + 1 == lo
      modifies `lo, `blocks, `handed, slots
      ensures Owns() && lo == at && Mem() == RawCells(blockSize) + old(Mem())
      ensures forall i | 0 <= i < slots.Length && i != at :: slots[i] == old(slots[i])
      ensures HandedOneMore(old(blocks.Keys), old(handed))
    {
      hide Owned, Owns, Mem, Flat, RawCells, Used;
      Owner();
      ghost var all, ids, was := slots[..], Used(), blocks;
      var id := AllocateNode();
      GrowFront(was, ids, blockSize, id, RawCells(blockSize));
      slots[at] := id;
      lo := at;
      SliceBefore(all, at, hi, id);
      assert slots[..] == all[at := id];
      Owning([id] + ids);
    }

    /** One more block behind. */
    method NewLast(at: nat)
      requires Owns() && at == hi < slots.Length
      modifies `hi, `blocks, `handed, slots
      ensures Owns() && hi == at + 1 && Mem() == old(Mem()) + RawCells(blockSize)
      ensures forall i | 0 <= i < slots.Length && i != at :: slots[i] == old(slots[i])
      ensures HandedOneMore(old(blocks.Keys), old(handed))
    {
      hide Owned, Owns, Mem, Flat, RawCells, Used;
      Owner();
      ghost var ids, was := Used(), blocks;
      var id := AllocateNode();
      GrowBack(was, ids, blockSize, id, RawCells(blockSize));
      slots[at] := id;
      hi := at + 1;
      assert slots[lo..hi] == ids + [id];
      Owning(ids + [id]);
    }

    /** Frees the first block, which holds no objects. */
    method FreeFirst(at: nat)
      requires Owns() && at == lo < hi
      requires blockSize <= |Mem()| && AllRaw(Mem(), 0, blockSize)
      modifies `lo, `blocks
      ensures Owns() && lo == at + 1 && Mem() == old(Mem())[blockSize..]
    {
      hide Owned, Owns, Mem, Flat, AllRaw, Used;
      Owner();
      var id := slots[at];
      ghost var rest := slots[lo + 1..hi];
      assert Used() == [id] + rest;
      ShrinkFront(blocks, id, rest, blockSize);
      blocks := blocks - {id};
      lo := at + 1;
      Owning(rest);
    }

    /** Frees the last block, which holds no objects. */
    method FreeLast(at: nat)
      requires Owns() && lo < hi == at + 1
      requires blockSize <= |Mem()| && AllRaw(Mem(), |Mem()| - blockSize, |Mem()|)
      modifies `hi, `blocks
      ensures Owns() && hi == at && Mem() == old(Mem())[..|old(Mem())| - blockSize]
    {
      hide Owned, Owns, Mem, Flat, AllRaw, Used;
      Owner();
      var id := slots[at];
      ghost var rest := slots[lo..at];
      assert Used() == rest + [id];
      ShrinkBack(blocks, id, rest, blockSize);
      blocks := blocks - {id};
      hi := at;
      Owning(rest);
    }

    /** One more block in front; p and q keep their cells. */
    method AddBlockBefore(at: nat, ghost p: Iter, ghost q: Iter, ghost v: int, ghost w: int)
      requires Owns() && at + 1 == lo && Is(p, v) && Is(q, w)
      modifies `lo, `blocks, `handed, slots
      ensures Owns() && lo == at && Mem() == RawCells(blockSize) + old(Mem())
      ensures forall i | 0 <= i < slots.Length && i != at :: slots[i] == old(slots[i])
      ensures HandedOneMore(old(blocks.Keys), old(handed))
      ensures Is(p, v + blockSize) && Is(q, w + blockSize)
    {
      hide Owned, Owns, Mem, Stands, Is;
      IsStands(p, v);
      IsStands(q, w);
      ghost var all, oldHi := slots[..], hi;
      NewFirst(at);
      StillIs(p, v, 1, all, at + 1, oldHi);
      StillIs(q, w, 1, all, at + 1, oldHi);
    }

    /** One more block behind. */
    method AddBlockAfter(at: nat, ghost p: Iter, ghost q: Iter, ghost v: int, ghost w: int)
      requires Owns() && at == hi < slots.Length && Is(p, v) && Is(q, w)
      modifies `hi, `blocks, `handed, slots
      ensures Owns() && hi == at + 1 && Mem() == old(Mem()) + RawCells(blockSize)
      ensures forall i | 0 <= i < slots.Length && i != at :: slots[i] == old(slots[i])
      ensures HandedOneMore(old(blocks.Keys), old(handed))
      ensures Is(p, v) && Is(q, w)
    {
      hide Owned, Owns, Mem, Stands, Is;
      IsStands(p, v);
      IsStands(q, w);
      ghost var all := slots[..];
      NewLast(at);
      StillIs(p, v, 0, all, lo, at);
      StillIs(q, w, 0, all, lo, at);
    }

    /** Frees the first block; p and q, further on, keep their cells. */
    method DropFirst(at: nat, ghost p: Iter, ghost q: Iter, ghost v: int, ghost w: int)
      requires Owns() && at == lo < hi && Is(p, v) && Is(q, w) && lo < p.node && lo < q.node
      requires blockSize <= |Mem()| && AllRaw(Mem(), 0, blockSize)
      modifies `lo, `blocks
      ensures Owns() && lo == at + 1 && Mem() == old(Mem())[blockSize..]
      ensures Is(p, v - blockSize) && Is(q, w - blockSize)
    {
      hide Owned, Owns, Mem, Stands, Is, AllRaw;
      IsStands(p, v);
      IsStands(q, w);
      FreeFirst(at);
      StillIs(p, v, -1, slots[..], at, hi);
      StillIs(q, w, -1, slots[..], at, hi);
    }

    /** Frees the last block; p and q, further down, keep their cells. */
    method DropLast(at: nat, ghost p: Iter, ghost q: Iter, ghost v: int, ghost w: int)
      requires Owns() && lo < hi == at + 1 && Is(p, v) && Is(q, w) && p.node < at && q.node < at
      requires blockSize <= |Mem()| && AllRaw(Mem(), |Mem()| - blockSize, |Mem()|)
      modifies `hi, `blocks
      ensures Owns() && hi == at && Mem() == old(Mem())[..|old(Mem())| - blockSize]
      ensures Is(p, v) && Is(q, w)
    {
      hide Owned, Owns, Mem, Stands, Is, AllRaw;
      IsStands(p, v);
      IsStands(q, w);
      FreeLast(at);
      StillIs(p, v, 0, slots[..], lo, at + 1);
      StillIs(q, w, 0, slots[..], lo, at + 1);
    }

    /** Start and finish stand in the first and last owned block, a and z cells in. */
    ghost predicate Ends(a: int, z: int)
      reads `lo, `hi, `slots, slots, `start, `finish
    {
      slots.Length > 0 && lo == start.node && hi == finish.node + 1 && Is(start, a) && Is(finish, z)
    }

    lemma EndsMean(a: int, z: int)
      requires Ends(a, z)
      ensures slots.Length > 0 && lo == start.node && hi == finish.node + 1 && Is(start, a) && Is(finish, z)
    {}

    ghost predicate Framed(a: int, z: int)
      reads `lo, `hi, `blocks, `slots, slots, `start, `finish
    {
      Owns() && Ends(a, z) && 0 <= a <= z <= |Mem()| && Holds(Mem(), a, z)
    }

    /** What holds between operations: no map yet, or the objects stand from start to finish and nowhere else. */
    ghost predicate Valid()
      reads `lo, `hi, `blocks, `slots, slots, `start, `finish
    {
      && blockSize > 0 && Owns()
      && if slots.Length == 0 then start == finish == Iter(0, 0, 0) else Framed(At(start), At(finish))
    }

    /** The elements; a moved-from one is an object with an unknown value. */
    ghost function Contents(): seq<Cell<T>>
      requires Valid()
      reads `lo, `hi, `blocks, `slots, slots, `start, `finish
    {
      if slots.Length == 0 then [] else Mem()[At(start)..At(finish)]
    }

    /** priv_reallocate_map: moves the pointers to the middle of the map, or of a larger one. */
    method ReallocateMap(nodesToAdd: nat, addAtFront: bool, ghost a: int, ghost z: int)
      requires Owns() && Ends(a, z)
      modifies `slots, slots, `lo, `hi, `start, `finish
      ensures Owns() && Ends(a, z) && Mem() == old(Mem())
      ensures blocks == old(blocks) && start.cur == old(start.cur) && finish.cur == old(finish.cur)
      ensures slots == old(slots) || fresh(slots)
      ensures if addAtFront then nodesToAdd <= start.node else finish.node + nodesToAdd < slots.Length
      ensures MovedToMiddle(old(Map()), Map(), nodesToAdd, addAtFront)
    {
      hide Owned, Owns, Mem, Stands, Is, At, Inside, Flat, MovedInPlace, Used, MapMoved;
      IsStands(start, a);
      IsStands(finish, z);
      ghost var all, ids := slots[..], Used();
      Owner();
      assert ids == all[start.node..finish.node + 1];
      var oldNum: nat := finish.node - start.node + 1;
      var newStart := PlaceInMap(start.node, oldNum, nodesToAdd, addAtFront);
      if slots == old(slots) { MovedKeepsOutside(all, start.node, oldNum, newStart, slots[..]); }
      Reseat(newStart, oldNum, ids, all, a, z);
    }

    /** Points both ends into the place of the used slots. */
    method Reseat(newStart: nat, n: nat, ghost ids: seq<BlockId>, ghost all: seq<BlockId>, ghost a: int, ghost z: int)
      requires 0 < n == |ids| && newStart + n <= slots.Length && slots[..][newStart..newStart + n] == ids
      requires Owned(blocks, ids, blockSize) && finish.node == start.node + n - 1
      requires Stands(all, start.node, start.node + n, blockSize, start, a)
      requires Stands(all, start.node, start.node + n, blockSize, finish, z)
      modifies `lo, `hi, `start, `finish
      ensures Owns() && Ends(a, z) && Mem() == Flat(blocks, ids)
      ensures start.node == newStart && finish.node == newStart + n - 1
      ensures start.cur == old(start.cur) && finish.cur == old(finish.cur)
    {
      hide Owned, Owns, Mem, Stands, Is, At, Inside, Flat, Used;
      ghost var moved := newStart - start.node;
      SlotsAt(slots[..], newStart, ids);
      lo, hi := newStart, newStart + n;
      Owning(ids);
      ghost var wasStart, wasFinish := start, finish;
      start := SetNode(start, slots[..], newStart);
      finish := SetNode(finish, slots[..], newStart + n - 1);
      CarriedAlong(wasStart, start, a, moved, all);
      CarriedAlong(wasFinish, finish, z, moved, all);
    }

    /** Picks the place for the used slots, n of them from first on, and copies them there. */
    method PlaceInMap(first: nat, n: nat, nodesToAdd: nat, addAtFront: bool) returns (newStart: nat)
      requires first + n <= slots.Length && n > 0
      modifies `slots, slots
      ensures newStart + n <= slots.Length && slots[..][newStart..newStart + n] == old(slots[..])[first..first + n]
      ensures slots == old(slots) || fresh(slots)
      ensures if addAtFront then nodesToAdd <= newStart else newStart + n + nodesToAdd <= slots.Length
      ensures newStart == MiddlePlace(slots.Length, n + nodesToAdd, nodesToAdd, addAtFront)
      ensures slots == old(slots) <==> old(slots.Length) > 2 * (n + nodesToAdd)
      ensures slots != old(slots) ==> slots.Length == LargerMap(old(slots.Length), nodesToAdd)
      ensures slots == old(slots) ==> MovedInPlace(old(slots[..]), first, n, newStart, slots[..])
    {
      hide Spliced, MovedInPlace;
      var newNum := n + nodesToAdd;
      if slots.Length > 2 * newNum {
        newStart := MiddlePlace(slots.Length, newNum, nodesToAdd, addAtFront);
        MoveSlots(slots, first, n, newStart);
      } else {
        var newSize := LargerMap(slots.Length, nodesToAdd);
        var newMap := new BlockId[newSize];
        newStart := MiddlePlace(newSize, newNum, nodesToAdd, addAtFront);
        MoveSlotsUp(slots, first, n, newMap, newStart);
        slots := newMap;
      }
    }

    /** An iterator whose slot moved along with the stretch keeps its cell. */
    lemma CarriedAlong(was: Iter, it: Iter, v: int, moved: int, ids: seq<BlockId>)
      requires Stands(ids, lo - moved, hi - moved, blockSize, was, v) && hi <= slots.Length && 0 <= lo
      requires it.node == was.node + moved && it.cur == was.cur && it.first == slots[it.node]
      ensures Is(it, v)
    {
      assert it.node - lo == was.node - (lo - moved);
    }

    /** A cell of the first block is in the first slot. */
    lemma InFirstBlock(it: Iter, v: int)
      requires Owns() && Is(it, v) && v < blockSize
      ensures it.node == lo && it.cur == v
    {
      if it.node > lo { MulMonotone(1, it.node - lo, blockSize); }
    }

    lemma InLastBlock(it: Iter, v: int)
      requires Owns() && Is(it, v) && |Mem()| - blockSize <= v
      ensures it.node == hi - 1 && it.cur == v - (|Mem()| - blockSize)
    {
      CellAt(it);
      MulStep(hi - lo - 1, blockSize);
      if it.node < hi - 1 {
        MulMonotone(it.node - lo + 1, hi - lo - 1, blockSize);
        MulStep(it.node - lo, blockSize);
      }
    }

    lemma FirstBlockCell(it: Iter, v: int)
      requires Is(it, v) && it.node == lo
      ensures 0 <= v == it.cur < blockSize
    {}

    lemma LastBlockCell(it: Iter, v: int)
      requires Owns() && Is(it, v) && it.node == hi - 1
      ensures v == |Mem()| - blockSize + it.cur && 0 <= it.cur < blockSize
    {
      CellAt(it);
      MulStep(hi - lo - 1, blockSize);
    }

    /** The allocator has been asked k more times. */
    ghost predicate HandedMore(k: nat, live: set<BlockId>, n: nat)
      reads `blocks, `handed
    {
      handed == n + k && blocks.Keys == HandedOut(pick, n, live, k)
    }

    /** Fills the newNodes map slots before the first with fresh blocks. */
    method AddBlocksBefore(newNodes: nat, ghost a: int, ghost z: int) returns (ghost shift: nat)
      requires Owns() && Ends(a, z) && newNodes <= start.node
      modifies slots, `lo, `blocks, `handed
      ensures shift == Span(newNodes, blockSize) && Owns() && Mem() == RawCells(shift) + old(Mem())
      ensures Is(start, a + shift) && Is(finish, z + shift) && lo == start.node - newNodes
      ensures Lengthened(old(Map()), Map(), newNodes, true, pick)
    {
      hide Owned, Owns, Mem, Is, RawCells, Ends, Span;
      shift := 0;
      ghost var m := Mem();
      RawNone(m);
      EndsMean(a, z);
      SpanStep(0, blockSize);
      var i := 1;
      while i <= newNodes
        invariant 1 <= i <= newNodes + 1 && lo == start.node - (i - 1)
        invariant shift == Span(i - 1, blockSize)
        invariant Owns() && Is(start, a + shift) && Is(finish, z + shift)
        invariant Mem() == RawCells(shift) + m
        invariant HandedMore(i - 1, old(blocks.Keys), old(handed))
        invariant forall k | 0 <= k < slots.Length && !(lo <= k < start.node) :: slots[k] == old(slots[k])
      {
        AddBlockBefore(start.node - i, start, finish, a + shift, z + shift);
        RawBefore(blockSize, shift, m);
        SpanStep(i - 1, blockSize);
        shift := shift + blockSize;
        i := i + 1;
      }
    }

    /** Fills the newNodes map slots after the last with fresh blocks. */
    method AddBlocksAfter(newNodes: nat, ghost a: int, ghost z: int) returns (ghost more: nat)
      requires Owns() && Ends(a, z) && finish.node + newNodes < slots.Length
      modifies slots, `hi, `blocks, `handed
      ensures more == Span(newNodes, blockSize) && Owns() && Mem() == old(Mem()) + RawCells(more)
      ensures Is(start, a) && Is(finish, z) && hi == finish.node + 1 + newNodes
      ensures Lengthened(old(Map()), Map(), newNodes, false, pick)
    {
      hide Owned, Owns, Mem, Is, RawCells, Ends, Span;
      more := 0;
      ghost var m := Mem();
      RawNone(m);
      EndsMean(a, z);
      SpanStep(0, blockSize);
      var i := 1;
      while i <= newNodes
        invariant 1 <= i <= newNodes + 1 && hi == finish.node + i
        invariant more == Span(i - 1, blockSize)
        invariant Owns() && Is(start, a) && Is(finish, z)
        invariant Mem() == m + RawCells(more)
        invariant HandedMore(i - 1, old(blocks.Keys), old(handed))
        invariant forall k | 0 <= k < slots.Length && !(finish.node < k < hi) :: slots[k] == old(slots[k])
      {
        AddBlockAfter(finish.node + i, start, finish, a, z);
        RawAfter(more, blockSize, m);
        SpanStep(i - 1, blockSize);
        more := more + blockSize;
        i := i + 1;
      }
    }

    /** priv_reserve_elements_at_front: owns n raw cells before start, and returns the first of them. */
    method ReserveFront(n: nat, ghost a: int, ghost z: int) returns (r: Iter, ghost shift: nat)
      requires Owns() && Ends(a, z)
      modifies `slots, slots, `lo, `hi, `start, `finish, `blocks, `handed
      ensures Owns() && Mem() == RawCells(shift) + old(Mem())
      ensures Is(start, a + shift) && Is(finish, z + shift) && Is(r, a + shift - n)
      ensures slots.Length > 0 && r.node == lo && hi == finish.node + 1
      ensures slots == old(slots) || fresh(slots)
      ensures Grew(old(Map()), Map(), BlocksNeeded(n, old(start.cur), blockSize), true, pick)
    {
      hide Owned, Owns, Mem, Is, RawCells, BlocksFor, Span, Grew, Lengthened, MovedToMiddle;
      ghost var was := Map();
      MapIsSound();
      var vacancies := start.cur;
      shift := 0;
      RawNone(Mem());
      FirstBlockCell(start, a);
      IsInMem(finish, z);
      if n > vacancies {
        var newElems: nat := n - vacancies;
        var newNodes := BlocksFor(newElems, blockSize);
        if newNodes > start.node {
          ReallocateMap(newNodes, true, a, z);
        }
        ghost var mid := Map();
        shift := AddBlocksBefore(newNodes, a, z);
        MovedAndFilled(was, mid, Map(), newNodes, true, pick);
      } else {
        GrewNothing(was, true, pick);
      }
      IsInMem(start, a + shift);
      r := Add(start, 0 - n, a + shift);
      InFirstBlock(r, a + shift - n);
    }

    /** priv_reserve_elements_at_back: owns n raw cells from finish on and one more, and returns that one. */
    method ReserveBack(n: nat, ghost a: int, ghost z: int) returns (r: Iter, ghost more: nat)
      requires Owns() && Ends(a, z)
      modifies `slots, slots, `lo, `hi, `start, `finish, `blocks, `handed
      ensures Owns() && Mem() == old(Mem()) + RawCells(more)
      ensures Is(start, a) && Is(finish, z) && Is(r, z + n)
      ensures slots.Length > 0 && lo == start.node && r.node == hi - 1
      ensures slots == old(slots) || fresh(slots)
      ensures Grew(old(Map()), Map(), BlocksNeeded(n, blockSize - old(finish.cur) - 1, blockSize), false, pick)
    {
      hide Owned, Owns, Mem, Is, RawCells, BlocksFor, Span, Grew, Lengthened, MovedToMiddle;
      ghost var was := Map();
      MapIsSound();
      var vacancies := blockSize - finish.cur - 1;
      more := 0;
      RawNone(Mem());
      LastBlockCell(finish, z);
      IsInMem(finish, z);
      if n > vacancies {
        var newElems: nat := n - vacancies;
        var newNodes := BlocksFor(newElems, blockSize);
        if newNodes + 1 > slots.Length - finish.node {
          ReallocateMap(newNodes, false, a, z);
        }
        ghost var mid := Map();
        more := AddBlocksAfter(newNodes, a, z);
        MovedAndFilled(was, mid, Map(), newNodes, false, pick);
      } else {
        GrewNothing(was, false, pick);
      }
      r := Add(finish, n, z);
      InLastBlock(r, z + n);
    }

    // ---------------------------------------------------------------- insertion

    /** priv_initialize_map(0): one empty block in the middle of a fresh map. */
    method InitializeMap()
      requires Valid() && slots.Length == 0
      modifies `slots, `lo, `hi, `start, `finish, `blocks, `handed
      ensures fresh(slots) && slots.Length == INITIAL_MAP_SIZE
      ensures Framed(0, 0) && start.cur == finish.cur == 0
      ensures FirstMap(Map(), old(handed), pick)
    {
      hide Owned, Mem, Flat, RawCells;
      NoBlocks();
      var numNodes := 0 / blockSize + 1;
      var mapSize := Max(INITIAL_MAP_SIZE, numNodes + 2);
      slots := new BlockId[mapSize];
      var nstart := (mapSize - numNodes) / 2;
      lo, hi := nstart, nstart;
      NothingOwned();
      NewLast(nstart);
      RawOnly();
      start := Iter(nstart, slots[nstart], 0);
      finish := start;
    }

    lemma NoBlocks()
      requires Valid() && slots.Length == 0
      ensures blocks.Keys == {} && blockSize > 0
    {}

    lemma NothingOwned()
      requires blockSize > 0 && lo == hi <= slots.Length && blocks.Keys == {}
      ensures Owns() && Mem() == []
    {
      assert Used() == [];
    }

    lemma RawOnly()
      requires Owns() && hi == lo + 1 && Mem() == [] + RawCells(blockSize)
      ensures |Mem()| == blockSize && Holds(Mem(), 0, 0)
    {}

    /** Objects in [a, z) and ends that point there are all that Valid asks for. */
    lemma Settled(a: nat, z: nat)
      requires Framed(a, z)
      ensures Valid() && slots.Length > 0 && Contents() == Mem()[a..z]
      ensures At(start) == a && At(finish) == z
    {}

    lemma Unsettled()
      requires Valid() && slots.Length > 0
      ensures 0 <= At(start) <= At(finish) <= |Mem()| && Framed(At(start), At(finish))
      ensures Contents() == Mem()[At(start)..At(finish)]
    {}

    /** At least as many elements before the position as new ones. */
    method MoveFrontSmall(newStart: Iter, e: nat, xs: seq<T>, ghost a: nat, ghost z: nat)
      requires Owns() && Is(start, a) && Is(finish, z) && |xs| <= a && |xs| <= e && a + e <= z
      requires Is(newStart, a - |xs|) && Holds(Mem(), a, z)
      modifies `blocks, `start
      ensures Owns() && start == newStart && Mem() == FrontSmall(old(Mem()), a, e, xs, selfMove)
    {
      hide Owned, Owns, Mem, Is, Relocated, Filled, AllRaw, NoneRaw, Holds;
      IsInMem(finish, z);
      ghost var m := Mem();
      FrontSmallSteps(m, a, z, e, xs, selfMove);
      var n := |xs|;
      var oldStart := start;
      var pos := Add(start, e, a);
      var startN := Add(start, n, a);
      MoveUp(start, startN, newStart, true, a, n, a - n);
      start := newStart;
      MoveUp(startN, pos, oldStart, false, a + n, e - n, a);
      var gap := Add(pos, 0 - n, a + e);
      CopyIn(gap, xs, false, a + e - n);
    }

    /** Fewer elements before the position than new ones. */
    method MoveFrontLarge(newStart: Iter, e: nat, xs: seq<T>, ghost a: nat, ghost z: nat)
      requires Owns() && Is(start, a) && Is(finish, z) && e < |xs| <= a && a + e <= z
      requires Is(newStart, a - |xs|) && Holds(Mem(), a, z)
      modifies `blocks, `start
      ensures Owns() && start == newStart && Mem() == FrontLarge(old(Mem()), a, e, xs, selfMove)
    {
      hide Owned, Owns, Mem, Is, Relocated, Filled, AllRaw, NoneRaw, Holds;
      IsInMem(finish, z);
      ghost var m := Mem();
      FrontLargeSteps(m, a, z, e, xs, selfMove);
      var oldStart := start;
      var pos := Add(start, e, a);
      var midCount := |xs| - e;
      var midStart := Add(oldStart, 0 - midCount, a);
      CopyIn(midStart, xs[..midCount], true, a - midCount);
      start := midStart;
      MoveUp(oldStart, pos, newStart, true, a, e, a - |xs|);
      start := newStart;
      CopyIn(oldStart, xs[midCount..], false, a);
    }

    /** At least as many elements after the position as new ones. */
    method MoveBackSmall(newFinish: Iter, after: nat, xs: seq<T>, ghost a: nat, ghost z: nat)
      requires Owns() && Is(start, a) && Is(finish, z) && |xs| <= after <= z - a
      requires Is(newFinish, z + |xs|) && z + |xs| < |Mem()| && Holds(Mem(), a, z)
      modifies `blocks, `finish
      ensures Owns() && finish == newFinish && Mem() == BackSmall(old(Mem()), z - after, z, xs, selfMove)
    {
      hide Owned, Owns, Mem, Is, Relocated, Filled, AllRaw, NoneRaw, Holds;
      ghost var m := Mem();
      BackSmallSteps(m, a, z, z - after, xs, selfMove);
      var n := |xs|;
      var oldFinish := finish;
      var pos := Add(oldFinish, 0 - after, z);
      var finishN := Add(oldFinish, 0 - n, z);
      MoveUp(finishN, oldFinish, oldFinish, true, z - n, n, z);
      finish := newFinish;
      MoveDown(pos, finishN, oldFinish, z - after, after - n, z - after + n);
      CopyIn(pos, xs, false, z - after);
    }

    /** Fewer elements after the position than new ones. */
    method MoveBackLarge(newFinish: Iter, after: nat, xs: seq<T>, ghost a: nat, ghost z: nat)
      requires Owns() && Is(start, a) && Is(finish, z) && after < |xs| && after <= z - a
      requires Is(newFinish, z + |xs|) && z + |xs| < |Mem()| && Holds(Mem(), a, z)
      modifies `blocks, `finish
      ensures Owns() && finish == newFinish && Mem() == BackLarge(old(Mem()), z - after, z, xs, selfMove)
    {
      hide Owned, Owns, Mem, Is, Relocated, Filled, AllRaw, NoneRaw, Holds;
      ghost var m := Mem();
      BackLargeSteps(m, a, z, z - after, xs, selfMove);
      var oldFinish := finish;
      var pos := Add(oldFinish, 0 - after, z);
      var rawGap := |xs| - after;
      var dest := Add(oldFinish, rawGap, z);
      MoveUp(pos, oldFinish, dest, true, z - after, after, z + rawGap);
      CopyIn(pos, xs[..after], false, z - after);
      CopyIn(oldFinish, xs[after..], true, z);
      finish := newFinish;
    }

    /** The moves and copies at the front, with no, enough, or too few elements before the position. */
    method MakeRoomInFront(newStart: Iter, e: nat, xs: seq<T>, ghost a: nat, ghost z: nat)
      requires Owns() && Is(start, a) && Is(finish, z) && |xs| <= a && a + e <= z
      requires Is(newStart, a - |xs|) && Holds(Mem(), a, z)
      modifies `blocks, `start
      ensures Owns() && start == newStart
      ensures Mem() == if |xs| <= e then FrontSmall(old(Mem()), a, e, xs, selfMove)
        else FrontLarge(old(Mem()), a, e, xs, selfMove)
    {
      hide Owned, Owns, Mem, Is, Holds, Filled, Relocated, FrontSmall, FrontLarge, AllRaw, NoneRaw;
      if e == 0 {
        IsInMem(finish, z);
        FrontEmptyStep(Mem(), a, z, xs, selfMove);
        CopyIn(newStart, xs, true, a - |xs|);
        start := newStart;
      } else if e >= |xs| {
        MoveFrontSmall(newStart, e, xs, a, z);
      } else {
        MoveFrontLarge(newStart, e, xs, a, z);
      }
    }

    /** The half of priv_insert_aux_impl that makes room by moving the elements before the position. */
    method InsertNearFront(e: nat, xs: seq<T>, ghost a: nat, ghost z: nat)
      requires Framed(a, z) && a + e <= z
      modifies `slots, slots, `lo, `hi, `start, `finish, `blocks, `handed
      ensures slots == old(slots) || fresh(slots)
      ensures Valid() && slots.Length > 0
      ensures Contents() == if xs == [] then Scarred(old(Mem())[a..z], 0, e, selfMove)
        else Inserted(old(Mem())[a..z], e, xs)
      ensures Grew(old(Map()), Map(), BlocksNeeded(|xs|, old(start.cur), blockSize), true, pick)
    {
      hide Owned, Owns, Mem, Is, Holds, Inserted, Scarred, Relocated;
      hide FrontSmall, FrontLarge, Valid, Contents, Grew, BlocksNeeded, Sound;
      var newStart, shift := ReserveFront(|xs|, a, z);
      MapIsSound();
      PadFront(old(Mem()), a, z, shift);
      IsInMem(newStart, a + shift - |xs|);
      ghost var m, p, q := Mem(), a + shift, z + shift;
      MakeRoomInFront(newStart, e, xs, p, q);
      if xs == [] { NothingAtFront(m, p, q, e, selfMove); } else { FrontInserts(m, Mem(), p, q, e, xs, selfMove); }
      Settled(p - |xs|, q);
      MapIsSound();
    }

    /** The moves and copies at the back. */
    method MakeRoomBehind(newFinish: Iter, after: nat, xs: seq<T>, ghost a: nat, ghost z: nat)
      requires Owns() && Is(start, a) && Is(finish, z) && after <= z - a
      requires Is(newFinish, z + |xs|) && z + |xs| < |Mem()| && Holds(Mem(), a, z)
      modifies `blocks, `finish
      ensures Owns() && finish == newFinish
      ensures Mem() == if |xs| <= after then BackSmall(old(Mem()), z - after, z, xs, selfMove)
        else BackLarge(old(Mem()), z - after, z, xs, selfMove)
    {
      hide Owned, Owns, Mem, Is, Holds, Filled, Relocated, BackSmall, BackLarge, AllRaw, NoneRaw;
      if after == 0 {
        BackEmptyStep(Mem(), a, z, xs, selfMove);
        CopyIn(finish, xs, true, z);
        finish := newFinish;
      } else if after >= |xs| {
        MoveBackSmall(newFinish, after, xs, a, z);
      } else {
        MoveBackLarge(newFinish, after, xs, a, z);
      }
    }

    /** The other half: it moves the elements after the position. */
    method InsertNearBack(e: nat, xs: seq<T>, ghost a: nat, ghost z: nat)
      requires Framed(a, z) && a + e <= z
      modifies `slots, slots, `lo, `hi, `start, `finish, `blocks, `handed
      ensures slots == old(slots) || fresh(slots)
      ensures Valid() && slots.Length > 0
      ensures Contents() == if xs == [] then Scarred(old(Mem())[a..z], e, z - a, selfMove)
        else Inserted(old(Mem())[a..z], e, xs)
      ensures Grew(old(Map()), Map(), BlocksNeeded(|xs|, blockSize - old(finish.cur) - 1, blockSize), false, pick)
    {
      hide Owned, Owns, Mem, Is, Holds, Inserted, Scarred, Relocated;
      hide BackSmall, BackLarge, Valid, Contents, Grew, BlocksNeeded, Sound;
      var length := Distance(finish, start, z, a);
      var newFinish, more := ReserveBack(|xs|, a, z);
      MapIsSound();
      PadBack(old(Mem()), a, z, more);
      IsInMem(newFinish, z + |xs|);
      ghost var m := Mem();
      MakeRoomBehind(newFinish, length - e, xs, a, z);
      if xs == [] { NothingAtBack(m, a, z, e, selfMove); } else { BackInserts(m, Mem(), a, z, e, xs, selfMove); }
      Settled(a, z + |xs|);
      MapIsSound();
    }

    /** it is the position of element number e, or the end. */
    ghost predicate IsAt(it: Iter, e: nat)
      requires Valid()
      reads `lo, `hi, `blocks, `slots, slots, `start, `finish
    {
      e <= |Contents()| && if slots.Length == 0 then it == start else Is(it, At(start) + e)
    }

    method Size() returns (n: nat)
      requires Valid()
      ensures n == |Contents()|
    {
      if slots.Length == 0 { return 0; }
      Unsettled();
      n := Distance(finish, start, At(finish), At(start));
    }

    lemma WhereIsAt(p: Iter, e: nat)
      requires Valid() && IsAt(p, e)
      ensures e <= |Contents()|
      ensures if slots.Length == 0 then e == 0 && Contents() == [] else Is(p, At(start) + e)
    {}

    lemma Pointing(p: Iter, e: nat)
      requires Valid() && slots.Length > 0 && e <= |Contents()| && Is(p, At(start) + e)
      ensures IsAt(p, e)
    {}

    /**
     priv_insert_aux_impl.  base is the state of the map before, or, when there was none,
     of the one made first.
     */
    method Insert(p: Iter, xs: seq<T>, ghost e: nat) returns (r: Iter, ghost base: MapState)
      requires Valid() && IsAt(p, e)
      modifies `slots, slots, `lo, `hi, `start, `finish, `blocks, `handed
      ensures slots == old(slots) || fresh(slots)
      ensures Valid() && Contents() == AfterInsert(old(Contents()), e, xs, selfMove)
      ensures slots.Length > 0 && IsAt(r, e)
      ensures if old(slots.Length) > 0 then base == old(Map()) else FirstMap(base, old(handed), pick)
      ensures GrewFor(base, |xs|, e < |old(Contents())| / 2, old(start.cur), old(finish.cur))
    {
      hide Owned, Owns, Mem, Is, Holds, Valid, Contents, IsAt, At, AfterInsert, FirstMap, GrewFor, Sound;
      WhereIsAt(p, e);
      StartsAtZero();
      var posN := 0;
      if slots.Length == 0 {
        InitializeMap();
        Settled(0, 0);
      } else {
        Unsettled();
        posN := Distance(p, start, At(start) + e, At(start));
      }
      base := Map();
      InsertInMap(posN, xs);
      AfterInsertLength(old(Contents()), e, xs, selfMove);
      r := AtIndex(posN);
    }

    /** The rest of it, once there is a map: from the nearer end. */
    method InsertInMap(posN: nat, xs: seq<T>)
      requires Valid() && slots.Length > 0 && posN <= |Contents()|
      modifies `slots, slots, `lo, `hi, `start, `finish, `blocks, `handed
      ensures slots == old(slots) || fresh(slots)
      ensures Valid() && slots.Length > 0 && Contents() == AfterInsert(old(Contents()), posN, xs, selfMove)
      ensures GrewFor(old(Map()), |xs|, posN < |old(Contents())| / 2, old(start.cur), old(finish.cur))
    {
      hide Owned, Owns, Mem, Is, Holds, Inserted, Scarred, Valid;
      hide Contents, At, Grew, HeaderKeptIff, BlocksNeeded, Sound;
      Unsettled();
      StartsAtZero();
      MapIsSound();
      NotAllFree();
      ghost var a, z, base := At(start), At(finish), Map();
      var length := Size();
      if posN < length / 2 {
        InsertNearFront(posN, xs, a, z);
      } else {
        InsertNearBack(posN, xs, a, z);
      }
      ValidOwns();
      MapIsSound();
      GrewWithHeader(base, Map(), NeedFor(|xs|, posN < length / 2, old(start.cur), old(finish.cur)),
        posN < length / 2, pick);
    }

    /** Without a map both ends are at offset 0. */
    lemma StartsAtZero()
      requires Valid()
      ensures blockSize > 0 && (slots.Length == 0 ==> start.cur == finish.cur == 0)
    {}

    lemma NotAllFree()
      requires Valid() && slots.Length > 0
      ensures lo < hi
    {}

    /** The blocks an insertion of n elements asks for, given the offsets of both ends. */
    function NeedFor(n: nat, front: bool, startCur: int, finishCur: int): nat
      requires blockSize > 0
    {
      BlocksNeeded(n, if front then startCur else blockSize - finishCur - 1, blockSize)
    }

    /** The map has grown from base for n elements, and what that does to the header's statement. */
    ghost predicate GrewFor(base: MapState, n: nat, front: bool, startCur: int, finishCur: int)
      reads `lo, `hi, `slots, slots, `blocks, `handed
    {
      && blockSize > 0 && Grew(base, Map(), NeedFor(n, front, startCur, finishCur), front, pick)
      && HeaderKeptIff(base, Map(), NeedFor(n, front, startCur, finishCur), front, pick)
    }

    /** begin() + index */
    method AtIndex(index: nat) returns (r: Iter)
      requires Valid() && slots.Length > 0 && index <= |Contents()|
      ensures IsAt(r, index)
    {
      hide Owned, Owns, Mem, Is, Holds, Valid, Contents, IsAt, At;
      Unsettled();
      IsInMem(finish, At(finish));
      r := Add(start, index, At(start));
      Pointing(r, index);
    }

    method PushBack(x: T) returns (ghost base: MapState)
      requires Valid()
      modifies `slots, slots, `lo, `hi, `start, `finish, `blocks, `handed
      ensures slots == old(slots) || fresh(slots)
      ensures Valid() && Contents() == old(Contents()) + [Live(x)]
      ensures if old(slots.Length) > 0 then base == old(Map()) else FirstMap(base, old(handed), pick)
      ensures slots.Length > 0 && GrewFor(base, 1, false, old(start.cur), old(finish.cur))
    {
      hide Owned, Owns, Mem, Is, Holds, Valid, Contents, At;
      hide IsAt, Grew, FirstMap, HeaderKeptIff, Sound, OnlyStretchIsLive, StaysClean;
      EndIsAt();
      if slots.Length > 0 && finish.cur != blockSize - 1 {
        Unsettled();
        base := Map();
        MapIsSound();
        NotAllFree();
        ghost var a, z := At(start), At(finish);
        IsInMem(finish, z);
        LastBlockCell(finish, z);
        PushBackCells(Mem(), a, z, x);
        OneFurther(finish, z);
        CopyCell(finish, x, true, z);
        finish := finish.(cur := finish.cur + 1);
        Settled(a, z + 1);
        MapIsSound();
        GrewNothing(base, false, pick);
        GrewWithHeader(base, Map(), 0, false, pick);
      } else {
        var r;
        r, base := Insert(finish, [x], |Contents()|);
      }
    }

    method PushFront(x: T) returns (ghost base: MapState)
      requires Valid()
      modifies `slots, slots, `lo, `hi, `start, `finish, `blocks, `handed
      ensures slots == old(slots) || fresh(slots)
      ensures Valid() && Contents() == [Live(x)] + old(Contents())
      ensures if old(slots.Length) > 0 then base == old(Map()) else FirstMap(base, old(handed), pick)
      ensures slots.Length > 0
      ensures if old(start.cur) != 0 then Map() == old(Map())
              else GrewFor(base, 1, |old(Contents())| > 1, old(start.cur), old(finish.cur))
    {
      hide Owned, Owns, Mem, Is, Holds, Valid, Contents, At;
      hide IsAt, Grew, FirstMap, HeaderKeptIff, Sound, OnlyStretchIsLive, StaysClean;
      EndIsAt();
      StartsAtZero();
      if slots.Length > 0 && start.cur != 0 {
        Unsettled();
        base := Map();
        MapIsSound();
        ghost var a, z := At(start), At(finish);
        FirstBlockCell(start, a);
        PushFrontCells(Mem(), a, z, x);
        OneBack(start, a);
        var cell := start.(cur := start.cur - 1);
        CopyCell(cell, x, true, a - 1);
        start := cell;
        Settled(a - 1, z);
        MapIsSound();
      } else {
        var r;
        r, base := Insert(start, [x], 0);
      }
    }

    lemma EndIsAt()
      requires Valid()
      ensures IsAt(start, 0) && IsAt(finish, |Contents()|)
    {}

    // ---------------------------------------------------------------- removal

    /** Since was, blocks have been given up at the ends, and the header's statement is kept. */
    ghost predicate GaveUpOnly(was: MapState)
      reads `lo, `hi, `slots, slots, `blocks, `handed
    {
      Shrank(was, Map()) && (OnlyStretchIsLive(was) ==> OnlyStretchIsLive(Map()))
    }

    lemma GaveUpBlocks(was: MapState)
      requires Owns() && Sound(was) && was.slots == slots[..] && was.handed == handed && was.lo <= lo && hi <= was.hi
      ensures GaveUpOnly(was)
    {
      hide Sound, OnlyStretchIsLive, Owns;
      Owner();
      MapIsSound();
      if OnlyStretchIsLive(was) { ShrinkingKeepsHeader(was, Map()); }
    }

    lemma ValidOwns()
      requires Valid()
      ensures Owns()
    {}

    method PopFront()
      requires Valid() && |Contents()| > 0
      modifies `lo, `start, `blocks
      ensures Valid() && Contents() == old(Contents())[1..]
      ensures slots.Length > 0
      ensures lo == old(lo) + (if old(start.cur) == blockSize - 1 then 1 else 0)
      ensures GaveUpOnly(old(Map()))
    {
      hide Owned, Owns, Mem, Is, Holds, Valid, Contents, At, Sound, OnlyStretchIsLive, GaveUpOnly;
      ValidOwns();
      ghost var was := Map();
      MapIsSound();
      NotEmpty();
      Unsettled();
      ghost var a, z := At(start), At(finish);
      ghost var m := Mem();
      FirstBlockCell(start, a);
      PopFrontCells(m, a, z);
      if start.cur != blockSize - 1 {
        DestroyCell(start, a);
        OneFurther(start, a);
        start := start.(cur := start.cur + 1);
        Settled(a + 1, z);
      } else {
        PopFrontAux(a, z);
      }
      ValidOwns();
      GaveUpBlocks(was);
    }

    /** Called only when start.cur is the last cell of its block. */
    method PopFrontAux(ghost a: nat, ghost z: nat)
      requires Framed(a, z) && a < z && start.cur == blockSize - 1
      modifies `lo, `start, `blocks
      ensures slots.Length > 0 && Valid() && Contents() == old(Mem())[a..z][1..]
      ensures lo == old(lo) + 1
    {
      hide Owned, Owns, Mem, Is, Holds, Valid, Contents, At;
      FirstBlockCell(start, a);
      ghost var m := Mem();
      PopFrontCells(m, a, z);
      DropFrontCells(m[a := Raw], a + 1, z, blockSize);
      DestroyCell(start, a);
      BlockAfterFirst(finish, z);
      var newStart := SetNode(start, slots[..], start.node + 1).(cur := 0);
      DropFirst(start.node, newStart, finish, blockSize, z);
      start := newStart;
      Settled(0, z - blockSize);
    }

    method PopBack()
      requires Valid() && |Contents()| > 0
      modifies `hi, `finish, `blocks
      ensures Valid() && Contents() == old(Contents())[..|old(Contents())| - 1]
      ensures slots.Length > 0
      ensures hi == old(hi) - (if old(finish.cur) == 0 then 1 else 0)
      ensures GaveUpOnly(old(Map()))
    {
      hide Owned, Owns, Mem, Is, Holds, Valid, Contents, At, Sound, OnlyStretchIsLive, GaveUpOnly;
      ValidOwns();
      ghost var was := Map();
      MapIsSound();
      NotEmpty();
      Unsettled();
      ghost var a, z := At(start), At(finish);
      ghost var m := Mem();
      PopBackCells(m, a, z);
      if finish.cur != 0 {
        OneBack(finish, z);
        finish := finish.(cur := finish.cur - 1);
        DestroyCell(finish, z - 1);
        Settled(a, z - 1);
      } else {
        PopBackAux(a, z);
      }
      ValidOwns();
      GaveUpBlocks(was);
    }

    /** Called only when finish.cur is the first cell of its block. */
    method PopBackAux(ghost a: nat, ghost z: nat)
      requires Framed(a, z) && a < z && finish.cur == 0
      modifies `hi, `finish, `blocks
      ensures slots.Length > 0 && Valid() && Contents() == old(Mem())[a..z][..z - a - 1]
      ensures hi == old(hi) - 1
    {
      hide Owned, Owns, Mem, Is, Holds, Valid, Contents, At;
      LastBlockCell(finish, z);
      ghost var m := Mem();
      DropBackCells(m, a, z, z);
      PopBackCells(m[..z], a, z);
      BlockBeforeLast(start, a, z);
      var newFinish := SetNode(finish, slots[..], finish.node - 1).(cur := blockSize - 1);
      DropLast(finish.node, start, newFinish, a, z - 1);
      finish := newFinish;
      DestroyCell(finish, z - 1);
      Settled(a, z - 1);
    }

    lemma NotEmpty()
      requires Valid() && |Contents()| > 0
      ensures slots.Length > 0 && At(start) < At(finish)
    {}

    lemma OneFurther(it: Iter, v: int)
      requires Owns() && Is(it, v) && it.cur != blockSize - 1
      ensures Is(it.(cur := it.cur + 1), v + 1)
    {}

    lemma OneBack(it: Iter, v: int)
      requires Owns() && Is(it, v) && it.cur != 0
      ensures Is(it.(cur := it.cur - 1), v - 1) && 0 <= v - 1 < |Mem()|
    {
      IsInMem(it, v);
      CellAt(it.(cur := it.cur - 1));
    }

    /** A cell beyond the first block means a second one. */
    lemma BlockAfterFirst(it: Iter, v: int)
      requires Owns() && Is(it, v) && v >= blockSize
      ensures lo < it.node < hi <= slots.Length
      ensures Is(Iter(lo + 1, slots[lo + 1], 0), blockSize)
    {
      if it.node == lo { FirstBlockCell(it, v); }
    }

    /** A cell before the last block means a block before it. */
    lemma BlockBeforeLast(it: Iter, v: int, z: int)
      requires Owns() && Is(it, v) && v < z == |Mem()| - blockSize
      ensures 0 <= lo <= it.node < hi - 1 < slots.Length
      ensures Is(Iter(hi - 2, slots[hi - 2], blockSize - 1), z - 1)
    {
      if it.node == hi - 1 { LastBlockCell(it, v); }
      CellAt(it);
      MulStep(hi - lo - 1, blockSize);
      MulStep(hi - lo - 2, blockSize);
    }

    /** erase(pos) */
    method Erase(pos: Iter, ghost e: nat) returns (r: Iter)
      requires Valid() && e < |Contents()| && IsAt(pos, e)
      modifies `lo, `hi, `start, `finish, `blocks
      ensures Valid() && Contents() == old(Contents())[..e] + old(Contents())[e + 1..]
      ensures slots.Length > 0 && IsAt(r, e)
      ensures GaveUpOnly(old(Map()))
    {
      hide Owned, Owns, Mem, Is, Holds, Valid, Contents, At, IsAt, Without, Sound, OnlyStretchIsLive, GaveUpOnly;
      ValidOwns();
      ghost var was := Map();
      MapIsSound();
      WhereIsAt(pos, e);
      NotEmpty();
      Unsettled();
      ghost var a, z := At(start), At(finish);
      ghost var m := Mem();
      IsInMem(finish, z);
      var next := Forward(pos, a + e);
      var index := Distance(pos, start, a + e, a);
      var size := Size();
      if index < size / 2 {
        CloseFromFront(pos, next, e, a, z);
      } else {
        CloseFromBack(pos, next, e, a, z);
      }
      WithoutOneCell(m[a..z], e);
      r := AtIndex(index);
      ValidOwns();
      GaveUpBlocks(was);
    }

    method CloseFromFront(pos: Iter, next: Iter, ghost e: nat, ghost a: nat, ghost z: nat)
      requires Framed(a, z) && a + e < z <= |Mem()| && Is(pos, a + e) && Is(next, a + e + 1)
      modifies `lo, `start, `blocks
      ensures Valid() && slots.Length > 0 && EraseFrontLeaves(old(Mem())[a..z], Contents(), e, 1, selfMove)
      ensures old(lo) <= lo
    {
      hide Owned, Owns, Mem, Is, Holds, Valid, Contents, At, Without, Relocated, NoneRaw, AllRaw, GaveUpOnly;
      EraseFrontCells(Mem(), a, z, e, 1, selfMove);
      MoveDown(start, pos, next, a, e, a + 1);
      Settled(a, z);
      assert Mem()[a..z][1..] == Mem()[a + 1..z];
      PopFront();
    }

    method CloseFromBack(pos: Iter, next: Iter, ghost e: nat, ghost a: nat, ghost z: nat)
      requires Framed(a, z) && a + e < z <= |Mem()| && Is(pos, a + e) && Is(next, a + e + 1)
      modifies `hi, `finish, `blocks
      ensures Valid() && slots.Length > 0 && EraseBackLeaves(old(Mem())[a..z], Contents(), e, 1, selfMove)
      ensures hi <= old(hi)
    {
      hide Owned, Owns, Mem, Is, Holds, Valid, Contents, At, Without, Relocated, NoneRaw, AllRaw, GaveUpOnly;
      EraseBackCells(Mem(), a, z, e, 1, selfMove);
      IsInMem(finish, z);
      MoveUp(next, finish, pos, false, a + e + 1, z - (a + e + 1), a + e);
      Settled(a, z);
      assert Mem()[a..z][..z - a - 1] == Mem()[a..z - 1];
      PopBack();
    }

    // ---------------------------------------------------------------- ranges

    /** priv_deallocate_node: the block is live, and holds no objects. */
    method DeallocateNode(id: BlockId)
      requires id in blocks && blocks[id] == RawCells(blockSize)
      modifies `blocks
      ensures blocks == old(blocks) - {id}
    {
      blocks := blocks - {id};
    }

    lemma SlotsDiffer()
      requires Owns()
      ensures lo <= hi <= slots.Length && forall j, k | lo <= j < k < hi :: slots[j] != slots[k]
    {
      DistinctSlots(slots[..], lo, hi);
    }

    /** priv_destroy_nodes: frees the blocks of the map slots from first to last. */
    method DestroyNodes(first: nat, last: nat)
      requires Owns() && lo <= first <= last <= hi
      requires forall k | first <= k < last :: slots[k] in blocks && blocks[slots[k]] == RawCells(blockSize)
      modifies `blocks
      ensures blocks == old(blocks) - Members(slots[first..last])
    {
      hide BlocksOk, RawCells, Owns, Owned;
      SlotsDiffer();
      ghost var was := blocks;
      var cur := first;
      assert was - Members(slots[first..first]) == was;
      while cur < last
        invariant first <= cur <= last
        invariant blocks == was - Members(slots[first..cur])
      {
        assert slots[cur] !in Members(slots[first..cur]);
        DeallocateNode(slots[cur]);
        assert slots[first..cur + 1] == slots[first..cur] + [slots[cur]];
        assert was - Members(slots[first..cur]) - {slots[cur]} == was - Members(slots[first..cur + 1]);
        cur := cur + 1;
      }
    }

    lemma CellsInOrder(p: Iter, q: Iter)
      requires Inside(p) && Inside(q) && p.node < q.node
      ensures At(p) < At(q)
    {
      MulMonotone(p.node - lo + 1, q.node - lo, blockSize);
      MulStep(p.node - lo, blockSize);
    }

    lemma NodesInOrder(p: Iter, q: Iter, v: int, w: int)
      requires Is(p, v) && Is(q, w) && v <= w
      ensures lo <= p.node <= q.node < hi <= slots.Length
    {
      if q.node < p.node { CellsInOrder(q, p); }
    }

    /** A block all of whose cells are raw. */
    lemma RawBlock(k: nat)
      requires Owns() && lo <= k < hi
      requires forall c: nat | c < blockSize ::
        0 <= At(Iter(k, slots[k], c)) < |Mem()| && Mem()[At(Iter(k, slots[k], c))] == Raw
      ensures slots[k] in blocks && blocks[slots[k]] == RawCells(blockSize)
    {
      ghost var id := slots[k];
      assert id in blocks && |blocks[id]| == blockSize by {
        ghost var ids := Used();
        assert ids[k - lo] == id;
      }
      hide Owned;
      forall c: nat | c < blockSize ensures blocks[id][c] == Raw {
        CellAt(Iter(k, id, c));
      }
    }

    lemma RawBlocksBefore(p: Iter, v: nat)
      requires Owns() && Is(p, v) && v <= |Mem()| && AllRaw(Mem(), 0, v)
      ensures forall k | lo <= k < p.node :: slots[k] in blocks && blocks[slots[k]] == RawCells(blockSize)
    {
      hide Owned, RawCells;
      forall k | lo <= k < p.node ensures slots[k] in blocks && blocks[slots[k]] == RawCells(blockSize) {
        forall c: nat | c < blockSize
          ensures 0 <= At(Iter(k, slots[k], c)) < |Mem()| && Mem()[At(Iter(k, slots[k], c))] == Raw
        {
          CellAt(Iter(k, slots[k], c));
          CellsInOrder(Iter(k, slots[k], c), p);
        }
        RawBlock(k);
      }
    }

    lemma RawBlocksAfter(p: Iter, v: nat)
      requires Owns() && Is(p, v) && v <= |Mem()| && AllRaw(Mem(), v, |Mem()|)
      ensures forall k | p.node < k < hi :: slots[k] in blocks && blocks[slots[k]] == RawCells(blockSize)
    {
      hide Owned, RawCells;
      forall k | p.node < k < hi ensures slots[k] in blocks && blocks[slots[k]] == RawCells(blockSize) {
        forall c: nat | c < blockSize
          ensures 0 <= At(Iter(k, slots[k], c)) < |Mem()| && Mem()[At(Iter(k, slots[k], c))] == Raw
        {
          CellAt(Iter(k, slots[k], c));
          CellsInOrder(p, Iter(k, slots[k], c));
        }
        RawBlock(k);
      }
    }

    /** Frees the blocks before p's, none of which holds objects. */
    method DropBefore(p: Iter, first: nat, ghost q: Iter, ghost v: nat, ghost w: nat) returns (ghost d: nat)
      requires Owns() && first == lo && Is(p, v) && Is(q, w) && v <= w && v <= |Mem()| && AllRaw(Mem(), 0, v)
      modifies `lo, `blocks
      ensures d <= v && d <= |old(Mem())| && Owns() && lo == p.node && Mem() == old(Mem())[d..]
      ensures Is(p, v - d) && Is(q, w - d)
      ensures old(lo) <= lo
    {
      hide Owned, Owns, Mem, Is, AllRaw, Span, Flat, Used, Stands, RawCells;
      NodesInOrder(p, q, v, w);
      NodesInOrder(p, p, v, v);
      RawBlocksBefore(p, v);
      Owner();
      IsStands(p, v);
      IsStands(q, w);
      ghost var k, ids, all, oldHi := p.node - lo, Used(), slots[..], hi;
      ShrinkFrontBy(blocks, ids, blockSize, k);
      DestroyNodes(first, p.node);
      lo := p.node;
      SplitSlice(slots[..], first, p.node, hi);
      Owning(ids[k..]);
      StillIs(p, v, -k, all, first, oldHi);
      StillIs(q, w, -k, all, first, oldHi);
      d := Span(k, blockSize);
      SpanNegated(k, blockSize);
      FirstBlockCell(p, v - d);
    }

    /** Frees the blocks after p's, none of which holds objects. */
    method DropAfter(p: Iter, last: nat, ghost q: Iter, ghost v: nat, ghost w: nat) returns (ghost d: nat)
      requires Owns() && last == hi && Is(p, v) && Is(q, w) && w <= v <= |Mem()| && AllRaw(Mem(), v, |Mem()|)
      modifies `hi, `blocks
      ensures v <= d <= |old(Mem())| && Owns() && hi == p.node + 1 && Mem() == old(Mem())[..d]
      ensures Is(p, v) && Is(q, w)
      ensures hi <= old(hi)
    {
      hide Owned, Owns, Mem, Is, AllRaw, Span, Flat, Used, Stands, RawCells;
      NodesInOrder(q, p, w, v);
      RawBlocksAfter(p, v);
      Owner();
      IsStands(p, v);
      IsStands(q, w);
      ghost var k, ids, all, oldLo := p.node + 1 - lo, Used(), slots[..], lo;
      ShrinkBackTo(blocks, ids, blockSize, k);
      DestroyNodes(p.node + 1, last);
      hi := p.node + 1;
      SplitSlice(slots[..], lo, p.node + 1, last);
      Owning(ids[..k]);
      StillIs(p, v, 0, all, lo, last);
      StillIs(q, w, 0, all, lo, last);
      d := Span(k, blockSize);
      IsInMem(p, v);
    }

    /** The half of erase(first, last) that closes the gap from the front. */
    method CloseRangeFromFront(first: Iter, last: Iter, n: nat, ghost i: nat, ghost a: nat, ghost z: nat)
      requires Framed(a, z) && a + i + n <= z <= |Mem()| && Is(first, a + i) && Is(last, a + i + n)
      modifies `lo, `start, `blocks
      ensures Valid() && slots.Length > 0 && EraseFrontLeaves(old(Mem())[a..z], Contents(), i, n, selfMove)
      ensures old(lo) <= lo
    {
      hide Owned, Owns, Mem, Is, Holds, Valid, Contents, At, EraseFrontLeaves, Relocated, NoneRaw, AllRaw;
      EraseFrontCells(Mem(), a, z, i, n, selfMove);
      IsInMem(finish, z);
      MoveDown(start, first, last, a, i, a + n);
      EndFirst(n, a, z);
    }

    /** The half that closes it from the back. */
    method CloseRangeFromBack(first: Iter, last: Iter, n: nat, ghost i: nat, ghost a: nat, ghost z: nat)
      requires Framed(a, z) && a + i + n <= z <= |Mem()| && Is(first, a + i) && Is(last, a + i + n)
      modifies `hi, `finish, `blocks
      ensures Valid() && slots.Length > 0 && EraseBackLeaves(old(Mem())[a..z], Contents(), i, n, selfMove)
      ensures hi <= old(hi)
    {
      hide Owned, Owns, Mem, Is, Holds, Valid, Contents, At, EraseBackLeaves, Relocated, NoneRaw, AllRaw;
      EraseBackCells(Mem(), a, z, i, n, selfMove);
      IsInMem(finish, z);
      MoveUp(last, finish, first, false, a + i + n, z - (a + i + n), a + i);
      EndLast(n, a, z);
    }

    /** Destroys the first n elements and frees the blocks they filled. */
    method EndFirst(n: nat, ghost a: nat, ghost z: nat)
      requires Framed(a, z) && a + n <= z <= |Mem()|
      modifies `lo, `start, `blocks
      ensures Valid() && slots.Length > 0 && Contents() == old(Mem())[a + n..z]
      ensures old(lo) <= lo
    {
      hide Owned, Owns, Mem, Is, Holds, Valid, Contents, At, Cleared, NoneRaw, AllRaw;
      IsInMem(finish, z);
      ClearFrontCells(Mem(), a, z, n);
      var newStart := Add(start, n, a);
      DestroyRange(start, newStart, a, a + n);
      ghost var m := Mem();
      NothingBeyond(m, a + n, z);
      ghost var d := DropBefore(newStart, start.node, finish, a + n, z);
      start := newStart;
      DropFrontCells(m, a + n, z, d);
      Settled(a + n - d, z - d);
    }

    /** Destroys the last n elements and frees the blocks they filled. */
    method EndLast(n: nat, ghost a: nat, ghost z: nat)
      requires Framed(a, z) && a + n <= z <= |Mem()|
      modifies `hi, `finish, `blocks
      ensures Valid() && slots.Length > 0 && Contents() == old(Mem())[a..z - n]
      ensures hi <= old(hi)
    {
      hide Owned, Owns, Mem, Is, Holds, Valid, Contents, At, Cleared, NoneRaw, AllRaw;
      IsInMem(finish, z);
      ClearBackCells(Mem(), a, z, n);
      var newFinish := Add(finish, 0 - n, z);
      DestroyRange(newFinish, finish, z - n, z);
      ghost var m := Mem();
      NothingBeyond(m, a, z - n);
      ghost var d := DropAfter(newFinish, finish.node + 1, start, z - n, a);
      finish := newFinish;
      DropBackCells(m, a, z - n, d);
      Settled(a, z - n);
    }

    /** erase(first, last) */
    method EraseRange(first: Iter, last: Iter, ghost i: nat, ghost j: nat) returns (r: Iter)
      requires Valid() && i <= j && IsAt(first, i) && IsAt(last, j)
      modifies `lo, `hi, `start, `finish, `blocks
      ensures Valid() && i <= j <= |old(Contents())| && Contents() == AfterErase(old(Contents()), i, j, selfMove)
      ensures IsAt(r, i)
      ensures GaveUpOnly(old(Map()))
    {
      hide Owned, Owns, Mem, Is, Holds, Valid, Contents, At;
      hide IsAt, Without, Scarred, Sound, OnlyStretchIsLive, GaveUpOnly;
      ValidOwns();
      ghost var was := Map();
      MapIsSound();
      WhereIsAt(first, i);
      WhereIsAt(last, j);
      EndIsAt();
      SamePlace(first, start, i, 0);
      SamePlace(last, finish, j, |Contents()|);
      ghost var c := Contents();
      AfterEraseLength(c, i, j, selfMove);
      if Same(first, start) && Same(last, finish) {
        Clear();
        r := finish;
        EndIsAt();
      } else {
        Unsettled();
        ghost var a, z := At(start), At(finish);
        var n := Distance(last, first, a + j, a + i);
        var before := Distance(first, start, a + i, a);
        var size := Size();
        if before < (size - n) - before {
          CloseRangeFromFront(first, last, n, i, a, z);
        } else {
          CloseRangeFromBack(first, last, n, i, a, z);
        }
        r := AtIndex(before);
      }
      ValidOwns();
      GaveUpBlocks(was);
    }

    lemma SamePlace(p: Iter, q: Iter, e: nat, f: nat)
      requires Valid() && IsAt(p, e) && IsAt(q, f)
      ensures slots.Length == 0 ==> e == f == 0 && Same(p, q)
      ensures slots.Length > 0 ==> (Same(p, q) <==> e == f)
    {
      if slots.Length > 0 { SameIsAt(p, q, At(start) + e, At(start) + f); }
    }

    /** Ends the lifetime of the objects in the cells from `from` to `to` of one block. */
    method DestroyCells(id: BlockId, from: nat, to: nat)
      requires id in blocks && from <= to <= |blocks[id]| && NoneRaw(blocks[id], from, to)
      modifies `blocks
      ensures blocks == old(blocks)[id := Cleared(old(blocks[id]), from, to)]
    {
      hide Cleared, NoneRaw;
      var p := from;
      ClearedNone(blocks[id], from);
      ghost var was, cells := blocks, blocks[id];
      while p != to
        invariant from <= p <= to && blocks == was[id := Cleared(cells, from, p)]
      {
        ClearOne(cells, from, p, to);
        ClearNext(cells, from, p);
        DestroyAt(id, p);
        p := p + 1;
      }
    }

    method DestroyAt(id: BlockId, c: nat)
      requires id in blocks && c < |blocks[id]| && blocks[id][c] != Raw
      modifies `blocks
      ensures blocks == old(blocks)[id := old(blocks[id])[c := Raw]]
    {
      blocks := blocks[id := blocks[id][c := Raw]];
    }

    /** Which cells hold objects: all of every inner block, the end of the first, the start of the last. */
    lemma WhatBlocksHold(a: nat, z: nat, k: nat, c: nat)
      requires Framed(a, z) && lo <= k < hi && c < blockSize
      ensures slots[k] in blocks && |blocks[slots[k]]| == blockSize
      ensures start.node == lo && finish.node == hi - 1
      ensures blocks[slots[k]][c] == Raw <==>
        (k == start.node && c < start.cur) || (k == finish.node && finish.cur <= c)
    {
      assert slots[k] in blocks && |blocks[slots[k]]| == blockSize by {
        ghost var ids := Used();
        assert ids[k - lo] == slots[k];
      }
      hide Owned;
      ghost var it := Iter(k, slots[k], c);
      CellAt(it);
      FirstBlockCell(start, a);
      LastBlockCell(finish, z);
      if k == lo { FirstBlockCell(it, At(it)); }
      if k == hi - 1 { LastBlockCell(it, At(it)); }
      if At(it) < a { InFirstBlock(it, At(it)); }
      if At(it) >= z { InLastBlock(it, At(it)); }
    }

    /** The same for whole blocks. */
    lemma HeldBlocks(a: nat, z: nat)
      requires Framed(a, z)
      ensures 0 <= start.node <= finish.node < slots.Length && lo == start.node && hi == finish.node + 1
      ensures forall k | start.node <= k <= finish.node :: slots[k] in blocks && |blocks[slots[k]]| == blockSize
      ensures forall k | start.node < k < finish.node :: Holds(blocks[slots[k]], 0, blockSize)
      ensures start.first == slots[start.node] && finish.first == slots[finish.node]
      ensures start.node == finish.node ==> start.cur <= finish.cur && Holds(blocks[start.first], start.cur, finish.cur)
      ensures start.node < finish.node ==>
        Holds(blocks[start.first], start.cur, blockSize) && Holds(blocks[finish.first], 0, finish.cur)
    {
      hide Owned;
      NodesInOrder(start, finish, a, z);
      forall k: nat, c: nat | start.node <= k <= finish.node && c < blockSize
        ensures slots[k] in blocks && |blocks[slots[k]]| == blockSize
        ensures blocks[slots[k]][c] == Raw <==>
          (k == start.node && c < start.cur) || (k == finish.node && finish.cur <= c)
      {
        WhatBlocksHold(a, z, k, c);
      }
      forall k | start.node <= k <= finish.node ensures slots[k] in blocks && |blocks[slots[k]]| == blockSize {
        WhatBlocksHold(a, z, k, 0);
      }
    }

    /** Without elements both ends are the same iterator, in the only block. */
    lemma EmptyEndsMeet()
      requires Valid() && Contents() == []
      ensures start == finish
      ensures slots.Length > 0 ==> lo == start.node && hi == lo + 1
    {
      if slots.Length > 0 {
        AtIsPosition(start);
        AtIsPosition(finish);
        SamePosition(start, finish, blockSize);
      }
    }

    /** What clear does to a deque that is not empty. */
    method ClearAll()
      requires Valid() && |Contents()| > 0
      modifies `hi, `finish, `blocks
      ensures Valid() && Contents() == [] && finish == start
      ensures slots.Length > 0 && blocks.Keys == {start.first} && hi <= old(hi)
    {
      hide Owned, Owns, Mem, Is, Holds, Valid, Contents, At;
      NotEmpty();
      Unsettled();
      ghost var a, z, was := At(start), At(finish), blocks;
      HeldBlocks(a, z);
      Owner();
      FirstBlockCell(start, a);
      LastBlockCell(finish, z);
      ClearMiddle();
      ClearEnds(was);
      hi := start.node + 1;
      OneRawBlock(a);
    }

    /** clear */
    method Clear()
      requires Valid()
      modifies `hi, `finish, `blocks
      ensures Valid() && Contents() == [] && finish == start
      ensures slots.Length > 0 ==> blocks.Keys == {start.first}
      ensures old(lo) == lo && hi <= old(hi)
      ensures GaveUpOnly(old(Map()))
    {
      hide Owned, Owns, Mem, Is, Holds, Valid, Contents, At, IsAt, Sound, OnlyStretchIsLive, GaveUpOnly;
      ValidOwns();
      ghost var was := Map();
      MapIsSound();
      EndIsAt();
      SamePlace(finish, start, |Contents()|, 0);
      if !Same(finish, start) {
        ClearAll();
      } else {
        EmptyEndsMeet();
        if slots.Length > 0 { OnlyBlock(); }
      }
      ValidOwns();
      GaveUpBlocks(was);
    }

    lemma OnlyBlock()
      requires Valid() && slots.Length > 0 && hi == lo + 1
      ensures blocks.Keys == {start.first}
    {
      ghost var ids := Used();
      assert ids == [start.first];
      assert Members(ids) == {start.first};
    }

    /** Destroys the objects of the inner blocks, and frees these. */
    method ClearMiddle()
      requires 0 <= start.node <= finish.node < slots.Length
      requires Owned(blocks, slots[start.node..finish.node + 1], blockSize)
      requires forall k | start.node < k < finish.node ::
        slots[k] in blocks && Holds(blocks[slots[k]], 0, blockSize) && |blocks[slots[k]]| == blockSize
      modifies `blocks
      ensures blocks == old(blocks) - Members(slots[start.node + 1..Max(start.node + 1, finish.node)])
    {
      hide Owned, RawCells, Cleared, Holds;
      ghost var was := blocks;
      DistinctSlots(slots[..], start.node, finish.node + 1);
      var node := start.node + 1;
      while node < finish.node
        invariant start.node < node <= Max(start.node + 1, finish.node)
        invariant blocks == was - Members(slots[start.node + 1..node])
      {
        var id := slots[node];
        assert id !in Members(slots[start.node + 1..node]);
        FullBlock(was[id]);
        DestroyCells(id, 0, blockSize);
        DeallocateNode(id);
        assert slots[start.node + 1..node + 1] == slots[start.node + 1..node] + [id];
        assert blocks == was - Members(slots[start.node + 1..node + 1]);
        node := node + 1;
      }
    }

    lemma FullBlock(cells: seq<Cell<T>>)
      requires Holds(cells, 0, |cells|)
      ensures NoneRaw(cells, 0, |cells|) && Cleared(cells, 0, |cells|) == RawCells(|cells|)
    {}

    lemma DistinctSlots(all: seq<BlockId>, from: nat, to: nat)
      requires from <= to <= |all| && Owned(blocks, all[from..to], blockSize)
      ensures forall j, k | from <= j < k < to :: all[j] != all[k]
    {
      hide BlocksOk;
      ghost var ids := all[from..to];
      forall j, k | from <= j < k < to ensures all[j] != all[k] {
        assert all[j] == ids[j - from] && all[k] == ids[k - from];
      }
    }

    /** Destroys the objects of the first and last block, and frees the last if it is another one. */
    method ClearEnds(ghost was: Blocks<T>)
      requires 0 <= start.node <= finish.node < slots.Length
      requires Owned(was, slots[start.node..finish.node + 1], blockSize)
      requires blocks == was - Members(slots[start.node + 1..Max(start.node + 1, finish.node)])
      requires start.first == slots[start.node] && finish.first == slots[finish.node]
      requires start.first in was && |was[start.first]| == blockSize
      requires finish.first in was && |was[finish.first]| == blockSize
      requires start.node == finish.node ==>
        0 <= start.cur <= finish.cur && Holds(was[start.first], start.cur, finish.cur)
      requires start.node < finish.node ==>
        0 <= start.cur && 0 <= finish.cur && Holds(was[start.first], start.cur, blockSize)
          && Holds(was[finish.first], 0, finish.cur)
      modifies `blocks, `finish
      ensures blocks == map[start.first := RawCells(blockSize)] && finish == start
    {
      hide Owned, RawCells, Cleared, Holds, NoneRaw, AllRaw;
      ghost var ids := slots[start.node..finish.node + 1];
      OnlyEndsLeft(was, blocks, ids, slots[start.node + 1..Max(start.node + 1, finish.node)]);
      if start.node != finish.node {
        ClearedBlock(was[start.first], start.cur, blockSize);
        ClearedBlock(was[finish.first], 0, finish.cur);
        DestroyCells(start.first, start.cur, blockSize);
        DestroyCells(finish.first, 0, finish.cur);
        DeallocateNode(finish.first);
      } else {
        ClearedBlock(was[start.first], start.cur, finish.cur);
        DestroyCells(start.first, start.cur, finish.cur);
      }
      finish := start;
    }

    lemma ClearedBlock(cells: seq<Cell<T>>, a: nat, z: nat)
      requires Holds(cells, a, z)
      ensures a <= z <= |cells| && NoneRaw(cells, a, z) && Cleared(cells, a, z) == RawCells(|cells|)
    {
      ClearedAll(cells, a, z);
    }

    lemma OnlyEndsLeft(was: Blocks<T>, now: Blocks<T>, ids: seq<BlockId>, inner: seq<BlockId>)
      requires Owned(was, ids, blockSize) && ids != [] && now == was - Members(inner)
      requires |ids| >= 2 ==> inner == ids[1..|ids| - 1]
      requires |ids| == 1 ==> inner == []
      ensures now.Keys == {ids[0], ids[|ids| - 1]} && (|ids| >= 2 ==> ids[0] != ids[|ids| - 1])
      ensures now[ids[0]] == was[ids[0]] && now[ids[|ids| - 1]] == was[ids[|ids| - 1]]
    {
      hide BlocksOk;
      assert forall id | id in ids :: id == ids[0] || id == ids[|ids| - 1] || id in inner;
      assert now.Keys == {ids[0], ids[|ids| - 1]};
    }

    /** A deque of one block without objects is a good one, wherever in the block both ends stand. */
    lemma OneRawBlock(a: nat)
      requires 0 <= start.node < slots.Length && lo == start.node && hi == lo + 1 && finish == start
      requires 0 <= start.cur == a < blockSize && start.first == slots[start.node]
      requires blocks == map[start.first := RawCells(blockSize)]
      ensures Valid() && Contents() == []
    {
      ghost var ids := [start.first];
      assert slots[lo..hi] == ids;
      assert Owned(blocks, ids, blockSize);
      assert ids[1..] == [];
      assert Flat(blocks, ids) == RawCells(blockSize);
      Owning(ids);
    }
  }
}
