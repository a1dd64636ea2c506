/**
 The import's table in terms of the records' cells alone: which columns identify a
 row, which record a row keeps, and what each statement changes.
 */
module TableCells {
  import opened Bytes
  import opened Options
  import opened ImportModel
  import opened ImportSafety

  // ---------------------------------------------------------------- what identifies a row

  /** The unique columns before column n. */
  ghost function UniqueBefore(sch: Schema, n: nat): set<nat>
  {
    set i: nat | i < n && i in sch.unique
  }

  lemma OneMoreColumn(sch: Schema, n: nat)
    ensures UniqueBefore(sch, 0) == {}
    ensures UniqueBefore(sch, n + 1) == UniqueBefore(sch, n) + (if n in sch.unique then {n} else {})
    ensures |UniqueBefore(sch, n + 1)| == |UniqueBefore(sch, n)| + (if n in sch.unique then 1 else 0)
  {
    assert UniqueBefore(sch, n + 1) == UniqueBefore(sch, n) + (if n in sch.unique then {n} else {});
    assert n !in UniqueBefore(sch, n);
  }

  lemma {:induction false} KeyLength(sch: Schema, cells: seq<seq<byte>>)
    ensures |sch.UniqueColumns(cells)| == |UniqueBefore(sch, |cells|)|
  {
    hide UniqueBefore;
    if cells == [] {
      OneMoreColumn(sch, 0);
    } else {
      KeyLength(sch, cells[..|cells| - 1]);
      OneMoreColumn(sch, |cells| - 1);
    }
  }

  lemma {:induction false} KeyCell(sch: Schema, cells: seq<seq<byte>>, c: nat)
    requires c < |cells| && c in sch.unique
    ensures |UniqueBefore(sch, c)| < |sch.UniqueColumns(cells)|
    ensures sch.UniqueColumns(cells)[|UniqueBefore(sch, c)|] == cells[c]
    decreases |cells|
  {
    hide UniqueBefore;
    var most := cells[..|cells| - 1];
    if c < |most| {
      KeyCell(sch, most, c);
      assert most[c] == cells[c];
    } else {
      KeyLength(sch, most);
    }
  }

  /** The key has one cell for each unique column of the record, and in column order: those, no others. */
  lemma KeyHasUniqueCells(sch: Schema, r: Record)
    ensures |sch.KeyOf(r)| == |set i: nat | i < |r| && i in sch.unique|
    ensures forall c: nat | c < |r| && c in sch.unique ::
      var k := |set i: nat | i < c && i in sch.unique|; k < |sch.KeyOf(r)| && sch.KeyOf(r)[k] == r[c]
  {
    KeyLength(sch, r);
    assert UniqueBefore(sch, |r|) == set i: nat | i < |r| && i in sch.unique;
    forall c: nat | c < |r| && c in sch.unique
      ensures var k := |set i: nat | i < c && i in sch.unique|; k < |sch.KeyOf(r)| && sch.KeyOf(r)[k] == r[c]
    {
      KeyCell(sch, r, c);
      assert UniqueBefore(sch, c) == set i: nat | i < c && i in sch.unique;
    }
  }

  /** So records of one table have the same key exactly if they agree on every unique column. */
  lemma SameKeyIff(sch: Schema, a: Record, b: Record)
    requires |a| == |b|
    ensures sch.KeyOf(a) == sch.KeyOf(b) <==> forall c: nat | c < |a| && c in sch.unique :: a[c] == b[c]
  {
    if forall c: nat | c < |a| && c in sch.unique :: a[c] == b[c] {
      AgreeingCells(sch, a, b);
    }
    if sch.KeyOf(a) == sch.KeyOf(b) {
      forall c: nat | c < |a| && c in sch.unique ensures a[c] == b[c] {
        KeyCell(sch, a, c);
        KeyCell(sch, b, c);
      }
    }
  }

  lemma {:induction false} AgreeingCells(sch: Schema, a: seq<seq<byte>>, b: seq<seq<byte>>)
    requires |a| == |b| && forall c: nat | c < |a| && c in sch.unique :: a[c] == b[c]
    ensures sch.UniqueColumns(a) == sch.UniqueColumns(b)
  {
    if a != [] { AgreeingCells(sch, a[..|a| - 1], b[..|b| - 1]); }
  }

  // ---------------------------------------------------------------- which record a row keeps

  /**
   A row is one of the records with its key, none of them has a newer last cell, and of
   those with the same last cell it is the first.
   */
  lemma {:induction false} RowIsFirstNewest(sch: Schema, all: seq<Record>, k: Key) returns (i: nat)
    requires sch.Valid() && k in Fold(sch, all)
    ensures i < |all| && all[i] == Fold(sch, all)[k] && sch.KeyOf(all[i]) == k
    ensures forall j | 0 <= j < |all| && sch.KeyOf(all[j]) == k ::
      !sch.older(all[i][|all[i]| - 1], all[j][|all[j]| - 1])
    ensures forall j | 0 <= j < i && sch.KeyOf(all[j]) == k :: all[j][|all[j]| - 1] != all[i][|all[i]| - 1]
  {
    var most, last := all[..|all| - 1], all[|all| - 1];
    if k in Fold(sch, most) {
      var m := RowIsFirstNewest(sch, most, k);
      assert forall j | 0 <= j < |most| :: most[j] == all[j];
      i := if sch.KeyOf(last) == k && sch.older(most[m][|most[m]| - 1], last[|last| - 1]) then |all| - 1 else m;
    } else {
      i := |all| - 1;
      FoldKeys(sch, most);
      assert forall j | 0 <= j < |most| :: most[j] == all[j];
    }
  }

  /** On the records of one table: a row for each of them, and only one that agrees with it on the unique columns. */
  lemma RowOfRecord(sch: Schema, all: seq<Record>, i: nat)
    requires sch.Valid() && i < |all| && forall j | 0 <= j < |all| :: |all[j]| == sch.columns
    ensures sch.KeyOf(all[i]) in Fold(sch, all)
    ensures var row := Fold(sch, all)[sch.KeyOf(all[i])];
      && |row| == sch.columns
      && (forall c | 0 <= c < sch.columns && c in sch.unique :: row[c] == all[i][c])
      && !sch.older(row[sch.columns - 1], all[i][sch.columns - 1])
    ensures forall k | k in Fold(sch, all) && k != sch.KeyOf(all[i]) ::
      |Fold(sch, all)[k]| == sch.columns
      && exists c | 0 <= c < sch.columns && c in sch.unique :: Fold(sch, all)[k][c] != all[i][c]
  {
    FoldKeys(sch, all);
    var rows := Fold(sch, all);
    forall k | k in rows
      ensures |rows[k]| == sch.columns && sch.KeyOf(rows[k]) == k
    {
      var j := RowIsFirstNewest(sch, all, k);
    }
    forall k | k in rows
      ensures k == sch.KeyOf(all[i]) <==> forall c: nat | c < sch.columns && c in sch.unique :: rows[k][c] == all[i][c]
    {
      SameKeyIff(sch, rows[k], all[i]);
    }
    var j := RowIsFirstNewest(sch, all, sch.KeyOf(all[i]));
  }

  // ---------------------------------------------------------------- what the statements change

  /** The update replaces the row with the record's key if its last cell is older, and changes nothing else. */
  lemma UpdateReplacesIff(sch: Schema, t: Rows, r: Record)
    ensures Execute(sch, t, Update(r)).Some?
    ensures var u := Execute(sch, t, Update(r)).value;
      && u.Keys == t.Keys
      && forall k | k in t ::
           u[k] == if k == sch.KeyOf(r) && sch.older(t[k][|t[k]| - 1], r[|r| - 1]) then r else t[k]
  {}

  /** The insert-if-absent adds the record if no row has its key, and changes nothing else. */
  lemma InsertAddsIff(sch: Schema, t: Rows, r: Record)
    ensures Execute(sch, t, InsertIfAbsent(r)) == Some(if sch.KeyOf(r) in t then t else t[sch.KeyOf(r) := r])
  {}

  /** What an accepted bulk insert adds; it changes nothing else. */
  lemma {:induction false} BulkInsertAdds(sch: Schema, t: Rows, records: seq<Record>)
    requires Execute(sch, t, BulkInsert(records)).Some?
    ensures var u := Execute(sch, t, BulkInsert(records)).value;
      && u.Keys == t.Keys + (set i | 0 <= i < |records| :: sch.KeyOf(records[i]))
      && (forall k | k in t :: u[k] == t[k])
      && (forall i | 0 <= i < |records| :: u[sch.KeyOf(records[i])] == records[i])
    decreases |records|
  {
    hide Schema.KeyOf;
    if records != [] {
      var n := |records| - 1;
      var most, last := records[..n], records[n];
      assert Execute(sch, t, BulkInsert(most)) == InsertRows(sch, t, most);
      BulkInsertAdds(sch, t, most);
      KeysOfMost(sch, records);
      var u, before := InsertRows(sch, t, records).value, InsertRows(sch, t, most).value;
      assert u == before[sch.KeyOf(last) := last] && sch.KeyOf(last) !in before;
      hide InsertRows;
      forall i | 0 <= i < |records| ensures u[sch.KeyOf(records[i])] == records[i] {
        if i < n { assert most[i] == records[i] && sch.KeyOf(most[i]) in before; }
      }
    }
  }

  lemma KeysOfMost(sch: Schema, records: seq<Record>)
    requires records != []
    ensures var n := |records| - 1;
      (set i | 0 <= i < |records| :: sch.KeyOf(records[i])) ==
      (set i | 0 <= i < |records[..n]| :: sch.KeyOf(records[..n][i])) + {sch.KeyOf(records[n])}
  {
    hide Schema.KeyOf;
    var n := |records| - 1;
    var keys := set i | 0 <= i < |records[..n]| :: sch.KeyOf(records[..n][i]);
    forall i | 0 <= i < n ensures sch.KeyOf(records[i]) in keys {
      assert records[..n][i] == records[i];
    }
  }

  /** It is accepted exactly if its records have keys of their own that are not in the table. */
  lemma {:induction false} BulkInsertAcceptedIff(sch: Schema, t: Rows, records: seq<Record>)
    ensures Execute(sch, t, BulkInsert(records)).Some? <==>
      && (forall i | 0 <= i < |records| :: sch.KeyOf(records[i]) !in t)
      && (forall i, j | 0 <= i < j < |records| :: sch.KeyOf(records[i]) != sch.KeyOf(records[j]))
    decreases |records|
  {
    hide Schema.KeyOf;
    if records != [] {
      var n := |records| - 1;
      var most := records[..n];
      BulkInsertAcceptedIff(sch, t, most);
      assert Execute(sch, t, BulkInsert(most)) == InsertRows(sch, t, most);
      assert forall i | 0 <= i < n :: most[i] == records[i];
      if InsertRows(sch, t, most).Some? {
        BulkInsertAdds(sch, t, most);
      }
    }
  }
}
