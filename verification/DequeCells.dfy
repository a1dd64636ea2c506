/** What the bulk operations of the deque do to its cells, and why insertion comes out right. */
module DequeCells {
  import opened DequeMemory

  /** An object assigned to itself: what is left depends on its type; an unknown value stays unknown. */
  function SelfMoved<T>(c: Cell<T>, sm: T -> Initialised<T>): Cell<T>
  {
    if c.Live? then sm(c.value) else c
  }

  /** n objects moved from s on to d on; sm says what an object moved onto itself is left as. */
  ghost function Relocated<T>(m: seq<Cell<T>>, s: nat, n: nat, d: nat, sm: T -> Initialised<T>): (r: seq<Cell<T>>)
    requires s + n <= |m| && d + n <= |m|
    ensures |r| == |m|
  {
    seq(|m|, i requires 0 <= i < |m| =>
      if s != d && d <= i < d + n then m[s + (i - d)]
      else if s <= i < s + n then (if s == d then SelfMoved(m[i], sm) else Moved)
      else m[i])
  }

  function Objects<T>(xs: seq<T>): (r: seq<Cell<T>>)
    ensures |r| == |xs| && forall i | 0 <= i < |xs| :: r[i] == Live(xs[i])
  {
    seq(|xs|, i requires 0 <= i < |xs| => Live(xs[i]))
  }

  ghost function Filled<T>(m: seq<Cell<T>>, p: nat, xs: seq<T>): (r: seq<Cell<T>>)
    requires p + |xs| <= |m|
    ensures |r| == |m|
  {
    m[..p] + Objects(xs) + m[p + |xs|..]
  }

  ghost function Cleared<T>(m: seq<Cell<T>>, a: nat, b: nat): (r: seq<Cell<T>>)
    requires a <= b <= |m|
    ensures |r| == |m|
  {
    m[..a] + RawCells(b - a) + m[b..]
  }

  ghost predicate AllRaw<T>(m: seq<Cell<T>>, a: nat, b: nat)
  {
    a <= b <= |m| && forall i | a <= i < b :: m[i] == Raw
  }

  ghost predicate NoneRaw<T>(m: seq<Cell<T>>, a: nat, b: nat)
  {
    a <= b <= |m| && forall i | a <= i < b :: m[i] != Raw
  }

  /** The objects of a deque lie in [a, z), and nothing else is initialised. */
  ghost predicate Holds<T>(m: seq<Cell<T>>, a: nat, z: nat)
  {
    NoneRaw(m, a, z) && AllRaw(m, 0, a) && AllRaw(m, z, |m|)
  }

  /** An insertion of xs at offset e into the cells was. */
  ghost function Inserted<T>(was: seq<Cell<T>>, e: nat, xs: seq<T>): seq<Cell<T>>
    requires e <= |was|
  {
    was[..e] + Objects(xs) + was[e..]
  }

  // ---------------------------------------------------------------- single steps of the loops

  lemma RelocatedNone<T>(m: seq<Cell<T>>, s: nat, d: nat, sm: T -> Initialised<T>)
    requires s <= |m| && d <= |m|
    ensures Relocated(m, s, 0, d, sm) == m
  {}

  /** Going forward: the next source is still untouched, and moving it extends the relocation by one. */
  lemma RelocateNext<T>(m: seq<Cell<T>>, s: nat, j: nat, d: nat, sm: T -> Initialised<T>)
    requires s + j < |m| && d + j < |m| && (d <= s || s + j < d)
    ensures Relocated(m, s, j, d, sm)[s + j] == m[s + j]
    ensures Relocated(m, s, j + 1, d, sm) ==
      if s == d then Relocated(m, s, j, d, sm)[s + j := SelfMoved(m[s + j], sm)]
      else Relocated(m, s, j, d, sm)[s + j := Moved][d + j := m[s + j]]
  {}

  /** Going backward, likewise. */
  lemma RelocatePrevious<T>(m: seq<Cell<T>>, s: nat, j: nat, d: nat, sm: T -> Initialised<T>)
    requires 0 < s && 0 < d && s + j <= |m| && d + j <= |m| && s <= d
    ensures Relocated(m, s, j, d, sm)[s - 1] == m[s - 1]
    ensures Relocated(m, s - 1, j + 1, d - 1, sm) ==
      if s == d then Relocated(m, s, j, d, sm)[s - 1 := SelfMoved(m[s - 1], sm)]
      else Relocated(m, s, j, d, sm)[s - 1 := Moved][d - 1 := m[s - 1]]
  {}

  /** A move into raw cells finds each target raw, a move onto objects finds none raw. */
  lemma NextTarget<T>(m: seq<Cell<T>>, s: nat, n: nat, d: nat, j: nat, raw: bool, sm: T -> Initialised<T>)
    requires j < n && s + n <= |m| && d + n <= |m| && (d <= s || s + n <= d) && NoneRaw(m, s, s + n)
    requires if raw then AllRaw(m, d, d + n) else NoneRaw(m, d, d + n)
    ensures Relocated(m, s, j, d, sm)[s + j] == m[s + j] && m[s + j] != Raw
    ensures raw <==> Relocated(m, s, j, d, sm)[d + j] == Raw
  {
    if raw {
      assert m[d + j] == Raw && m[d] == Raw && m[s] != Raw;
    }
  }

  lemma PreviousTarget<T>(m: seq<Cell<T>>, s: nat, n: nat, d: nat, j: nat, sm: T -> Initialised<T>)
    requires j < n && s + n <= |m| && d + n <= |m| && s <= d && NoneRaw(m, s, s + n)
    requires NoneRaw(m, d, d + n)
    ensures Relocated(m, s + n - j, j, d + n - j, sm)[s + n - j - 1] == m[s + n - j - 1] && m[s + n - j - 1] != Raw
    ensures Relocated(m, s + n - j, j, d + n - j, sm)[d + n - j - 1] != Raw
  {}

  lemma FilledNone<T>(m: seq<Cell<T>>, p: nat)
    requires p <= |m|
    ensures Filled(m, p, []) == m
  {}

  lemma FillNext<T>(m: seq<Cell<T>>, p: nat, xs: seq<T>, x: T)
    requires p + |xs| < |m|
    ensures Filled(m, p, xs)[p + |xs|] == m[p + |xs|]
    ensures Filled(m, p, xs + [x]) == Filled(m, p, xs)[p + |xs| := Live(x)]
  {}

  lemma ClearNext<T>(m: seq<Cell<T>>, a: nat, b: nat)
    requires a <= b < |m|
    ensures Cleared(m, a, b)[b] == m[b]
    ensures Cleared(m, a, b + 1) == Cleared(m, a, b)[b := Raw]
  {}

  lemma ClearOne<T>(m: seq<Cell<T>>, a: nat, b: nat, to: nat)
    requires a <= b < to && NoneRaw(m, a, to)
    ensures b < |m| && m[b] != Raw && |Cleared(m, a, b)| == |m|
  {}

  lemma ClearedAll<T>(m: seq<Cell<T>>, a: nat, b: nat)
    requires a <= b <= |m| && AllRaw(m, 0, a) && AllRaw(m, b, |m|)
    ensures Cleared(m, a, b) == RawCells(|m|)
  {}

  lemma ClearedNone<T>(m: seq<Cell<T>>, a: nat)
    requires a <= |m|
    ensures Cleared(m, a, a) == m
  {}

  lemma RelocatedAt<T>(m: seq<Cell<T>>, s: nat, n: nat, d: nat, i: nat, sm: T -> Initialised<T>)
    requires s + n <= |m| && d + n <= |m| && i < |m| && s != d
    ensures Relocated(m, s, n, d, sm)[i] == if d <= i < d + n then m[s + (i - d)]
      else if s <= i < s + n then Moved else m[i]
  {}

  lemma FilledAt<T>(m: seq<Cell<T>>, p: nat, xs: seq<T>, i: nat)
    requires p + |xs| <= |m| && i < |m|
    ensures Filled(m, p, xs)[i] == if p <= i < p + |xs| then Live(xs[i - p]) else m[i]
  {}

  lemma InsertedAt<T>(was: seq<Cell<T>>, e: nat, xs: seq<T>, i: nat)
    requires e <= |was| && i < |was| + |xs|
    ensures |Inserted(was, e, xs)| == |was| + |xs|
    ensures i < e ==> Inserted(was, e, xs)[i] == was[i]
    ensures e <= i < e + |xs| ==> Inserted(was, e, xs)[i] == Live(xs[i - e])
    ensures e + |xs| <= i ==> Inserted(was, e, xs)[i] == was[i - |xs|]
  {}

  lemma InsertedLength<T>(was: seq<Cell<T>>, e: nat, xs: seq<T>)
    requires e <= |was|
    ensures |Inserted(was, e, xs)| == |was| + |xs|
  {}

  // ---------------------------------------------------------------- the four ways to make room

  /** Cell i once the e objects from a on have moved back by |xs| cells and the new ones fill the gap. */
  ghost function FrontCell<T>(m: seq<Cell<T>>, a: nat, e: nat, xs: seq<T>, i: nat): Cell<T>
    requires |xs| <= a && a + e <= |m| && i < |m|
  {
    if i < a - |xs| then m[i]
    else if i < a - |xs| + e then m[i + |xs|]
    else if i < a + e then Live(xs[i - (a + e - |xs|)])
    else m[i]
  }

  /** Cell i once the objects in [p, z) have moved on by |xs| cells and the new ones fill the gap. */
  ghost function BackCell<T>(m: seq<Cell<T>>, p: nat, z: nat, xs: seq<T>, i: nat): Cell<T>
    requires p <= z && z + |xs| <= |m| && i < |m|
  {
    if i < p then m[i]
    else if i < p + |xs| then Live(xs[i - p])
    else if i < z + |xs| then m[i - |xs|]
    else m[i]
  }

  /** Near the front, no more new elements than elements before: two moves and a copy. */
  ghost function FrontSmall<T>(m: seq<Cell<T>>, a: nat, e: nat, xs: seq<T>, sm: T -> Initialised<T>): (r: seq<Cell<T>>)
    requires |xs| <= a && |xs| <= e && a + e <= |m|
    ensures |r| == |m|
  {
    var m1 := Relocated(m, a, |xs|, a - |xs|, sm);
    var m2 := Relocated(m1, a + |xs|, e - |xs|, a, sm);
    Filled(m2, a + e - |xs|, xs)
  }

  lemma FrontSmallAt<T>(m: seq<Cell<T>>, a: nat, e: nat, xs: seq<T>, i: nat, sm: T -> Initialised<T>)
    requires |xs| <= a && 0 < |xs| <= e && a + e <= |m| && i < |m|
    ensures FrontSmall(m, a, e, xs, sm)[i] == FrontCell(m, a, e, xs, i)
  {
    var m1 := Relocated(m, a, |xs|, a - |xs|, sm);
    var m2 := Relocated(m1, a + |xs|, e - |xs|, a, sm);
    hide Filled;
    FilledAt(m2, a + e - |xs|, xs, i);
  }

  /** Near the front, more new elements than elements before: the first of them go into raw cells. */
  ghost function FrontLarge<T>(m: seq<Cell<T>>, a: nat, e: nat, xs: seq<T>, sm: T -> Initialised<T>): (r: seq<Cell<T>>)
    requires e < |xs| <= a && a + e <= |m|
    ensures |r| == |m|
  {
    var mid := |xs| - e;
    var m1 := Filled(m, a - mid, xs[..mid]);
    var m2 := Relocated(m1, a, e, a - |xs|, sm);
    Filled(m2, a, xs[mid..])
  }

  lemma FrontLargeAt<T>(m: seq<Cell<T>>, a: nat, e: nat, xs: seq<T>, i: nat, sm: T -> Initialised<T>)
    requires e < |xs| <= a && a + e <= |m| && i < |m|
    ensures FrontLarge(m, a, e, xs, sm)[i] == FrontCell(m, a, e, xs, i)
  {
    var mid := |xs| - e;
    var m1 := Filled(m, a - mid, xs[..mid]);
    var m2 := Relocated(m1, a, e, a - |xs|, sm);
    assert FrontLarge(m, a, e, xs, sm) == Filled(m2, a, xs[mid..]);
    hide Filled, Relocated, FrontLarge;
    FilledAt(m2, a, xs[mid..], i);
    RelocatedAt(m1, a, e, a - |xs|, i, sm);
    FilledAt(m, a - mid, xs[..mid], if a - |xs| <= i < a - |xs| + e then i + |xs| else i);
  }

  /** Near the back, no more new elements than elements after. */
  ghost function BackSmall<T>(m: seq<Cell<T>>, p: nat, z: nat, xs: seq<T>, sm: T -> Initialised<T>): (r: seq<Cell<T>>)
    requires p + |xs| <= z && z + |xs| <= |m|
    ensures |r| == |m|
  {
    var m1 := Relocated(m, z - |xs|, |xs|, z, sm);
    var m2 := Relocated(m1, p, z - |xs| - p, p + |xs|, sm);
    Filled(m2, p, xs)
  }

  lemma BackSmallAt<T>(m: seq<Cell<T>>, p: nat, z: nat, xs: seq<T>, i: nat, sm: T -> Initialised<T>)
    requires 0 < |xs| && p + |xs| <= z && z + |xs| <= |m| && i < |m|
    ensures BackSmall(m, p, z, xs, sm)[i] == BackCell(m, p, z, xs, i)
  {
    var m1 := Relocated(m, z - |xs|, |xs|, z, sm);
    var m2 := Relocated(m1, p, z - |xs| - p, p + |xs|, sm);
    hide Filled;
    FilledAt(m2, p, xs, i);
  }

  /** Near the back, more new elements than elements after. */
  ghost function BackLarge<T>(m: seq<Cell<T>>, p: nat, z: nat, xs: seq<T>, sm: T -> Initialised<T>): (r: seq<Cell<T>>)
    requires p <= z < p + |xs| && z + |xs| <= |m|
    ensures |r| == |m|
  {
    var after := z - p;
    var m1 := Relocated(m, p, after, p + |xs|, sm);
    var m2 := Filled(m1, p, xs[..after]);
    Filled(m2, z, xs[after..])
  }

  lemma BackLargeAt<T>(m: seq<Cell<T>>, p: nat, z: nat, xs: seq<T>, i: nat, sm: T -> Initialised<T>)
    requires p <= z < p + |xs| && z + |xs| <= |m| && i < |m|
    ensures BackLarge(m, p, z, xs, sm)[i] == BackCell(m, p, z, xs, i)
  {
    var after := z - p;
    var m1 := Relocated(m, p, after, p + |xs|, sm);
    var m2 := Filled(m1, p, xs[..after]);
    hide Filled;
    FilledAt(m2, z, xs[after..], i);
    FilledAt(m1, p, xs[..after], i);
  }

  ghost predicate RoomAtFront<T>(m: seq<Cell<T>>, r: seq<Cell<T>>, a: nat, e: nat, xs: seq<T>)
  {
    && |r| == |m| && |xs| <= a && a + e <= |m|
    && forall i: nat {:trigger r[i]} | i < |m| :: r[i] == FrontCell(m, a, e, xs, i)
  }

  ghost predicate RoomAtBack<T>(m: seq<Cell<T>>, r: seq<Cell<T>>, p: nat, z: nat, xs: seq<T>)
  {
    && |r| == |m| && p <= z && z + |xs| <= |m|
    && forall i: nat {:trigger r[i]} | i < |m| :: r[i] == BackCell(m, p, z, xs, i)
  }

  lemma RoomAtFrontInserts<T>(m: seq<Cell<T>>, r: seq<Cell<T>>, a: nat, z: nat, e: nat, xs: seq<T>)
    requires a + e <= z <= |m| && RoomAtFront(m, r, a, e, xs)
    ensures r[a - |xs|..z] == Inserted(m[a..z], e, xs)
  {
    hide Inserted;
    var was, got := m[a..z], r[a - |xs|..z];
    InsertedLength(was, e, xs);
    forall i | 0 <= i < |got| ensures got[i] == Inserted(was, e, xs)[i] {
      InsertedAt(was, e, xs, i);
      assert got[i] == r[a - |xs| + i];
    }
  }

  lemma RoomAtBackInserts<T>(m: seq<Cell<T>>, r: seq<Cell<T>>, a: nat, z: nat, e: nat, xs: seq<T>)
    requires a + e <= z <= |m| && RoomAtBack(m, r, a + e, z, xs)
    ensures r[a..z + |xs|] == Inserted(m[a..z], e, xs)
  {
    hide Inserted;
    var was, got := m[a..z], r[a..z + |xs|];
    InsertedLength(was, e, xs);
    forall i | 0 <= i < |got| ensures got[i] == Inserted(was, e, xs)[i] {
      InsertedAt(was, e, xs, i);
      assert got[i] == r[a + i];
    }
  }

  lemma RoomAtFrontHolds<T>(m: seq<Cell<T>>, r: seq<Cell<T>>, a: nat, z: nat, e: nat, xs: seq<T>)
    requires Holds(m, a, z) && a + e <= z && RoomAtFront(m, r, a, e, xs)
    ensures Holds(r, a - |xs|, z)
  {}

  lemma RoomAtBackHolds<T>(m: seq<Cell<T>>, r: seq<Cell<T>>, a: nat, z: nat, e: nat, xs: seq<T>)
    requires Holds(m, a, z) && a + e <= z && RoomAtBack(m, r, a + e, z, xs)
    ensures Holds(r, a, z + |xs|)
  {}

  /** Both ways near the front leave the old objects with the new ones in between. */
  lemma FrontInserts<T>(m: seq<Cell<T>>, r: seq<Cell<T>>, a: nat, z: nat, e: nat, xs: seq<T>, sm: T -> Initialised<T>)
    requires Holds(m, a, z) && |xs| <= a && a + e <= z && 0 < |xs|
    requires r == if |xs| <= e then FrontSmall(m, a, e, xs, sm) else FrontLarge(m, a, e, xs, sm)
    ensures Holds(r, a - |xs|, z) && r[a - |xs|..z] == Inserted(m[a..z], e, xs)
  {
    assert |r| == |m|;
    hide FrontSmall, FrontLarge, Inserted, FrontCell, Holds;
    forall i: nat | i < |m| ensures r[i] == FrontCell(m, a, e, xs, i) {
      if |xs| <= e { FrontSmallAt(m, a, e, xs, i, sm); } else { FrontLargeAt(m, a, e, xs, i, sm); }
    }
    RoomAtFrontInserts(m, r, a, z, e, xs);
    RoomAtFrontHolds(m, r, a, z, e, xs);
  }

  /** Both ways near the back do, too. */
  lemma BackInserts<T>(m: seq<Cell<T>>, r: seq<Cell<T>>, a: nat, z: nat, e: nat, xs: seq<T>, sm: T -> Initialised<T>)
    requires Holds(m, a, z) && z + |xs| <= |m| && a + e <= z && 0 < |xs|
    requires r == if |xs| <= z - (a + e) then BackSmall(m, a + e, z, xs, sm) else BackLarge(m, a + e, z, xs, sm)
    ensures Holds(r, a, z + |xs|) && r[a..z + |xs|] == Inserted(m[a..z], e, xs)
  {
    assert |r| == |m|;
    hide BackSmall, BackLarge, Inserted, BackCell, Holds;
    forall i: nat | i < |m| ensures r[i] == BackCell(m, a + e, z, xs, i) {
      if |xs| <= z - (a + e) { BackSmallAt(m, a + e, z, xs, i, sm); } else { BackLargeAt(m, a + e, z, xs, i, sm); }
    }
    RoomAtBackInserts(m, r, a, z, e, xs);
    RoomAtBackHolds(m, r, a, z, e, xs);
  }

  // ---------------------------------------------------------------- each step meets what it needs

  /** The cells the two moves and the copy touch are in the state each of them needs. */
  lemma FrontSmallSteps<T>(m: seq<Cell<T>>, a: nat, z: nat, e: nat, xs: seq<T>, sm: T -> Initialised<T>)
    requires Holds(m, a, z) && |xs| <= a && |xs| <= e && a + e <= z
    ensures NoneRaw(m, a, a + |xs|) && AllRaw(m, a - |xs|, a)
    ensures var m1 := Relocated(m, a, |xs|, a - |xs|, sm);
      && NoneRaw(m1, a + |xs|, a + e) && NoneRaw(m1, a, a + e - |xs|)
      && NoneRaw(Relocated(m1, a + |xs|, e - |xs|, a, sm), a + e - |xs|, a + e)
  {}

  /** With no elements before the position, only the copy is left of either way. */
  lemma FrontEmptyStep<T>(m: seq<Cell<T>>, a: nat, z: nat, xs: seq<T>, sm: T -> Initialised<T>)
    requires Holds(m, a, z) && |xs| <= a
    ensures AllRaw(m, a - |xs|, a)
    ensures Filled(m, a - |xs|, xs) == if |xs| <= 0 then FrontSmall(m, a, 0, xs, sm) else FrontLarge(m, a, 0, xs, sm)
  {
    assert xs[..|xs|] == xs;
  }

  /** Likewise with no elements after it. */
  lemma BackEmptyStep<T>(m: seq<Cell<T>>, a: nat, z: nat, xs: seq<T>, sm: T -> Initialised<T>)
    requires Holds(m, a, z) && z + |xs| <= |m|
    ensures AllRaw(m, z, z + |xs|)
    ensures Filled(m, z, xs) == if |xs| <= 0 then BackSmall(m, z, z, xs, sm) else BackLarge(m, z, z, xs, sm)
  {
    assert xs[..0] == [] && xs[0..] == xs;
    RelocatedNone(m, z, z + |xs|, sm);
    RelocatedNone(m, z, z, sm);
    FilledNone(m, z);
  }

  lemma FrontLargeSteps<T>(m: seq<Cell<T>>, a: nat, z: nat, e: nat, xs: seq<T>, sm: T -> Initialised<T>)
    requires Holds(m, a, z) && e < |xs| <= a && a + e <= z
    ensures AllRaw(m, a - (|xs| - e), a)
    ensures var m1 := Filled(m, a - (|xs| - e), xs[..|xs| - e]);
      && NoneRaw(m1, a, a + e) && AllRaw(m1, a - |xs|, a - |xs| + e)
      && NoneRaw(Relocated(m1, a, e, a - |xs|, sm), a, a + e)
  {}

  lemma BackSmallSteps<T>(m: seq<Cell<T>>, a: nat, z: nat, p: nat, xs: seq<T>, sm: T -> Initialised<T>)
    requires Holds(m, a, z) && a <= p && p + |xs| <= z && z + |xs| <= |m|
    ensures NoneRaw(m, z - |xs|, z) && AllRaw(m, z, z + |xs|)
    ensures var m1 := Relocated(m, z - |xs|, |xs|, z, sm);
      && NoneRaw(m1, p, z - |xs|) && NoneRaw(m1, p + |xs|, z)
      && NoneRaw(Relocated(m1, p, z - |xs| - p, p + |xs|, sm), p, p + |xs|)
  {}

  lemma BackLargeSteps<T>(m: seq<Cell<T>>, a: nat, z: nat, p: nat, xs: seq<T>, sm: T -> Initialised<T>)
    requires Holds(m, a, z) && a <= p <= z < p + |xs| && z + |xs| <= |m|
    ensures NoneRaw(m, p, z) && AllRaw(m, p + |xs|, z + |xs|)
    ensures var m1 := Relocated(m, p, z - p, p + |xs|, sm);
      && NoneRaw(m1, p, z)
      && AllRaw(Filled(m1, p, xs[..z - p]), z, p + |xs|)
  {}

  /** More raw cells in front change nothing but the numbering. */
  lemma PadFront<T>(m: seq<Cell<T>>, a: nat, z: nat, shift: nat)
    requires Holds(m, a, z)
    ensures var r := RawCells(shift) + m;
      Holds(r, a + shift, z + shift) && r[a + shift..z + shift] == m[a..z]
  {}

  lemma PadBack<T>(m: seq<Cell<T>>, a: nat, z: nat, more: nat)
    requires Holds(m, a, z)
    ensures var r := m + RawCells(more);
      Holds(r, a, z) && r[a..z] == m[a..z]
  {
    var r := m + RawCells(more);
    assert forall i: nat | i < |r| :: r[i] == if i < |m| then m[i] else Raw;
  }

  // ---------------------------------------------------------------- removing

  /** Elements i to j have been moved onto themselves. */
  ghost function Scarred<T>(c: seq<Cell<T>>, i: nat, j: nat, sm: T -> Initialised<T>): (r: seq<Cell<T>>)
    requires i <= j <= |c|
    ensures |r| == |c|
  {
    seq(|c|, k requires 0 <= k < |c| => if i <= k < j then SelfMoved(c[k], sm) else c[k])
  }

  /** Moving objects onto themselves. */
  lemma SelfMoveScars<T>(m: seq<Cell<T>>, a: nat, z: nat, s: nat, n: nat, sm: T -> Initialised<T>)
    requires Holds(m, a, z) && a <= s && s + n <= z
    ensures Holds(Relocated(m, s, n, s, sm), a, z)
    ensures Relocated(m, s, n, s, sm)[a..z] == Scarred(m[a..z], s - a, s - a + n, sm)
  {}

  lemma PopFrontCells<T>(m: seq<Cell<T>>, a: nat, z: nat)
    requires Holds(m, a, z) && a < z
    ensures m[a] != Raw && Holds(m[a := Raw], a + 1, z) && m[a := Raw][a + 1..z] == m[a..z][1..]
  {}

  lemma PopBackCells<T>(m: seq<Cell<T>>, a: nat, z: nat)
    requires Holds(m, a, z) && a < z
    ensures m[z - 1] != Raw && Holds(m[z - 1 := Raw], a, z - 1)
    ensures m[z - 1 := Raw][a..z - 1] == m[a..z][..z - a - 1]
  {}

  lemma NothingBeyond<T>(m: seq<Cell<T>>, a: nat, z: nat)
    requires Holds(m, a, z)
    ensures a <= z <= |m| && AllRaw(m, 0, a) && AllRaw(m, z, |m|)
  {}

  /** Raw cells in front, or behind, can be given up. */
  lemma DropFrontCells<T>(m: seq<Cell<T>>, a: nat, z: nat, k: nat)
    requires Holds(m, a, z) && k <= a
    ensures AllRaw(m, 0, k) && Holds(m[k..], a - k, z - k) && m[k..][a - k..z - k] == m[a..z]
  {}

  lemma DropBackCells<T>(m: seq<Cell<T>>, a: nat, z: nat, k: nat)
    requires Holds(m, a, z) && z <= k <= |m|
    ensures AllRaw(m, k, |m|) && Holds(m[..k], a, z) && m[..k][a..z] == m[a..z]
  {}

  /** The elements without those from i to j. */
  ghost function Without<T>(c: seq<Cell<T>>, i: nat, j: nat): seq<Cell<T>>
    requires i <= j <= |c|
  {
    c[..i] + c[j..]
  }

  /** Moving the i elements before the gap up against the rest leaves n cells to clear in front. */
  lemma EraseFrontCells<T>(m: seq<Cell<T>>, a: nat, z: nat, i: nat, n: nat, sm: T -> Initialised<T>)
    requires Holds(m, a, z) && a + i + n <= z
    ensures NoneRaw(m, a, a + i) && NoneRaw(m, a + n, a + n + i)
    ensures var r := Relocated(m, a, i, a + n, sm); Holds(r, a, z) && EraseFrontLeaves(m[a..z], r[a + n..z], i, n, sm)
  {
    if n == 0 { SelfMoveScars(m, a, z, a, i, sm); } else { GapGoesToFront(m, a, z, i, n, sm); }
  }

  lemma GapGoesToFront<T>(m: seq<Cell<T>>, a: nat, z: nat, i: nat, n: nat, sm: T -> Initialised<T>)
    requires Holds(m, a, z) && a + i + n <= z && 0 < n
    ensures var r := Relocated(m, a, i, a + n, sm); Holds(r, a, z) && r[a + n..z] == Without(m[a..z], i, i + n)
  {
    MovesWithin(m, a, z, a, i, a + n, sm);
    hide Relocated, Holds;
    var r := Relocated(m, a, i, a + n, sm);
    var got, want := r[a + n..z], Without(m[a..z], i, i + n);
    assert |got| == |want|;
    forall k | 0 <= k < |got| ensures got[k] == want[k] {
      assert got[k] == r[a + n + k];
      RelocatedAt(m, a, i, a + n, a + n + k, sm);
    }
  }

  lemma GapGoesToBack<T>(m: seq<Cell<T>>, a: nat, z: nat, i: nat, n: nat, sm: T -> Initialised<T>)
    requires Holds(m, a, z) && a + i + n <= z && 0 < n
    ensures var r := Relocated(m, a + i + n, z - (a + i + n), a + i, sm);
      Holds(r, a, z) && r[a..z - n] == Without(m[a..z], i, i + n)
  {
    MovesWithin(m, a, z, a + i + n, z - (a + i + n), a + i, sm);
    hide Relocated, Holds;
    var r := Relocated(m, a + i + n, z - (a + i + n), a + i, sm);
    var got, want := r[a..z - n], Without(m[a..z], i, i + n);
    assert |got| == |want|;
    forall k | 0 <= k < |got| ensures got[k] == want[k] {
      assert got[k] == r[a + k];
      RelocatedAt(m, a + i + n, z - (a + i + n), a + i, a + k, sm);
    }
  }

  lemma MovesWithin<T>(m: seq<Cell<T>>, a: nat, z: nat, s: nat, n: nat, d: nat, sm: T -> Initialised<T>)
    requires Holds(m, a, z) && a <= s && s + n <= z && a <= d && d + n <= z
    ensures Holds(Relocated(m, s, n, d, sm), a, z)
  {}

  lemma WithoutOneCell<T>(c: seq<Cell<T>>, i: nat)
    requires i < |c|
    ensures Without(c, i, i + 1) == c[..i] + c[i + 1..] && |Without(c, i, i + 1)| == |c| - 1
  {}

  ghost predicate EraseFrontLeaves<T>(c: seq<Cell<T>>, rest: seq<Cell<T>>, i: nat, n: nat, sm: T -> Initialised<T>)
  {
    i + n <= |c| && rest == if n == 0 then Scarred(c, 0, i, sm) else Without(c, i, i + n)
  }

  /** Moving the elements after the gap down against the rest leaves n cells to clear behind. */
  lemma EraseBackCells<T>(m: seq<Cell<T>>, a: nat, z: nat, i: nat, n: nat, sm: T -> Initialised<T>)
    requires Holds(m, a, z) && a + i + n <= z
    ensures NoneRaw(m, a + i + n, z) && NoneRaw(m, a + i, z - n)
    ensures var r := Relocated(m, a + i + n, z - (a + i + n), a + i, sm);
      Holds(r, a, z) && EraseBackLeaves(m[a..z], r[a..z - n], i, n, sm)
  {
    if n == 0 { SelfMoveScars(m, a, z, a + i, z - (a + i), sm); } else { GapGoesToBack(m, a, z, i, n, sm); }
  }

  ghost predicate EraseBackLeaves<T>(c: seq<Cell<T>>, rest: seq<Cell<T>>, i: nat, n: nat, sm: T -> Initialised<T>)
  {
    i + n <= |c| && rest == if n == 0 then Scarred(c, i, |c|, sm) else Without(c, i, i + n)
  }

  lemma ClearFrontCells<T>(m: seq<Cell<T>>, a: nat, z: nat, n: nat)
    requires Holds(m, a, z) && a + n <= z
    ensures NoneRaw(m, a, a + n)
    ensures var r := Cleared(m, a, a + n); Holds(r, a + n, z) && r[a + n..z] == m[a + n..z]
  {}

  lemma ClearBackCells<T>(m: seq<Cell<T>>, a: nat, z: nat, n: nat)
    requires Holds(m, a, z) && a + n <= z
    ensures NoneRaw(m, z - n, z)
    ensures var r := Cleared(m, z - n, z); Holds(r, a, z - n) && r[a..z - n] == m[a..z - n]
  {}

  /** What erasing the elements from i to j does. */
  ghost function AfterErase<T>(c: seq<Cell<T>>, i: nat, j: nat, sm: T -> Initialised<T>): seq<Cell<T>>
    requires i <= j <= |c|
  {
    if i < j then Without(c, i, j)
    else if i < |c| - i then Scarred(c, 0, i, sm)
    else Scarred(c, i, |c|, sm)
  }

  lemma AfterEraseLength<T>(c: seq<Cell<T>>, i: nat, j: nat, sm: T -> Initialised<T>)
    requires i <= j <= |c|
    ensures |AfterErase(c, i, j, sm)| == |c| - (j - i)
    ensures i == 0 && j == |c| ==> AfterErase(c, i, j, sm) == []
  {}

  /** Elements i to j survive being moved onto themselves. */
  predicate Survive<T(==)>(was: seq<T>, i: nat, j: nat, sm: T -> Initialised<T>)
    requires i <= j <= |was|
  {
    forall k | i <= k < j :: sm(was[k]) == Live(was[k])
  }

  lemma ScarredIsIntactIff<T>(was: seq<T>, i: nat, j: nat, sm: T -> Initialised<T>)
    requires i <= j <= |was|
    ensures Scarred(Objects(was), i, j, sm) == Objects(was) <==> Survive(was, i, j, sm)
  {
    var c, r := Objects(was), Scarred(Objects(was), i, j, sm);
    assert forall k | i <= k < j :: r[k] == sm(was[k]) && c[k] == Live(was[k]);
    if Survive(was, i, j, sm) {
      assert r == c;
    }
  }

  /**
   Erasing a range keeps the values of the others if and only if it is not empty, or
   the elements on the shorter side survive being moved onto themselves.
   */
  lemma EraseKeepsValuesIff<T>(was: seq<T>, i: nat, j: nat, sm: T -> Initialised<T>)
    requires i <= j <= |was|
    ensures AfterErase(Objects(was), i, j, sm) == Objects(was[..i] + was[j..])
      <==> i < j || (if i < |was| - i then Survive(was, 0, i, sm) else Survive(was, i, |was|, sm))
  {
    if i == j {
      assert was[..i] + was[j..] == was;
      ScarredIsIntactIff(was, if i < |was| - i then 0 else i, if i < |was| - i then i else |was|, sm);
    }
  }

  // ---------------------------------------------------------------- inserting nothing

  /** An insertion of no elements moves every object on the shorter side onto itself. */
  lemma NothingAtFront<T>(m: seq<Cell<T>>, a: nat, z: nat, e: nat, sm: T -> Initialised<T>)
    requires Holds(m, a, z) && a + e <= z
    ensures var r := FrontSmall(m, a, e, [], sm); Holds(r, a, z) && r[a..z] == Scarred(m[a..z], 0, e, sm)
  {
    RelocatedNone(m, a, a, sm);
    assert FrontSmall(m, a, e, [], sm) == Relocated(m, a, e, a, sm);
    SelfMoveScars(m, a, z, a, e, sm);
  }

  lemma NothingAtBack<T>(m: seq<Cell<T>>, a: nat, z: nat, e: nat, sm: T -> Initialised<T>)
    requires Holds(m, a, z) && a + e <= z
    ensures var r := BackSmall(m, a + e, z, [], sm); Holds(r, a, z) && r[a..z] == Scarred(m[a..z], e, z - a, sm)
  {
    RelocatedNone(m, z, z, sm);
    assert BackSmall(m, a + e, z, [], sm) == Relocated(m, a + e, z - (a + e), a + e, sm);
    SelfMoveScars(m, a, z, a + e, z - (a + e), sm);
  }

  /** What an insertion at offset e does to the elements. */
  ghost function AfterInsert<T>(c: seq<Cell<T>>, e: nat, xs: seq<T>, sm: T -> Initialised<T>): seq<Cell<T>>
    requires e <= |c|
  {
    if xs != [] then Inserted(c, e, xs)
    else if e < |c| / 2 then Scarred(c, 0, e, sm)
    else Scarred(c, e, |c|, sm)
  }

  lemma AfterInsertLength<T>(c: seq<Cell<T>>, e: nat, xs: seq<T>, sm: T -> Initialised<T>)
    requires e <= |c|
    ensures |AfterInsert(c, e, xs, sm)| == |c| + |xs|
  {}

  lemma PushBackCells<T>(m: seq<Cell<T>>, a: nat, z: nat, x: T)
    requires Holds(m, a, z) && z < |m|
    ensures m[z] == Raw && Holds(m[z := Live(x)], a, z + 1) && m[z := Live(x)][a..z + 1] == m[a..z] + [Live(x)]
  {}

  lemma PushFrontCells<T>(m: seq<Cell<T>>, a: nat, z: nat, x: T)
    requires Holds(m, a, z) && 0 < a
    ensures m[a - 1] == Raw && Holds(m[a - 1 := Live(x)], a - 1, z)
    ensures m[a - 1 := Live(x)][a - 1..z] == [Live(x)] + m[a..z]
  {}

  /**
   An insertion keeps all values if and only if it inserts something, or the elements
   on the shorter side survive being moved onto themselves.
   */
  lemma InsertKeepsValuesIff<T>(was: seq<T>, e: nat, xs: seq<T>, sm: T -> Initialised<T>)
    requires e <= |was|
    ensures AfterInsert(Objects(was), e, xs, sm) == Objects(was[..e] + xs + was[e..])
      <==> xs != [] || (if e < |was| / 2 then Survive(was, 0, e, sm) else Survive(was, e, |was|, sm))
  {
    if xs == [] {
      assert was[..e] + xs + was[e..] == was;
      ScarredIsIntactIff(was, if e < |was| / 2 then 0 else e, if e < |was| / 2 then e else |was|, sm);
    }
  }

  /** The smallest loss: inserting nothing before the second of two elements, when that one does not survive. */
  lemma InsertNothingLosesAnElement<T>(x: T, y: T, sm: T -> Initialised<T>)
    requires sm(y) != Live(y)
    ensures AfterInsert(Objects([x, y]), 1, [], sm) == [Live(x), sm(y)] != Objects([x, y])
  {
    var c := Objects([x, y]);
    assert c[0] == Live(x) && c[1] == Live(y);
    assert AfterInsert(c, 1, [], sm)[1] == sm(y);
  }
}
