/**
 A commit stores the file and then the offset.  A kill in between leaves the new
 file with the old offset; this is what a restart makes of such a pair.
 */
module HalfCommit {
  import opened Bytes
  import opened Options
  import opened ImportModel
  import opened CsvFile

  /** The record that the byte at offset o belongs to: where it starts. */
  ghost function StartOf(sch: Schema, file: seq<byte>, from: nat, o: nat): (b: nat)
    requires sch.columns > 0 && WholeRecords(sch, file, from) && from <= o < |file|
    ensures from <= b <= o < |file| && WholeRecords(sch, file, b) && o < FieldsEnd(file, b, sch.columns)
    decreases |file| - from
  {
    if o < FieldsEnd(file, from, sch.columns) then from
    else StartOf(sch, file, FieldsEnd(file, from, sch.columns), o)
  }

  /**
   The old offset serves in the new file: reading can go on there, and nothing of the
   last owed records is passed over.  If it goes on to the end of the file, the record
   met first reads like the one the offset lies in; if a byte 0xFF stops it on the way,
   what has been read is what the file ends in.
   */
  ghost predicate OffsetServes(sch: Schema, files: seq<seq<byte>>, h: nat, o: nat, owed: nat)
    requires FilesOk(sch, files) && h < |files|
  {
    var file := files[h];
    && Readable(sch, file, o) && |Rest(sch, files, h, o)| >= owed
    && if EndsAt(file, o) then true
       else if WholeRecords(sch, file, o) then
         var b := StartOf(sch, file, 0, o);
         b == o || Cells(sch, file, o, 0, sch.columns) == Cells(sch, file, b, 0, sch.columns)
       else
         IsSuffix(RecordsFrom(sch, file, o), RecordsFrom(sch, file, 0))
  }

  // ---------------------------------------------------------------- counting separators

  ghost function Separators(file: seq<byte>, o: nat): nat
    decreases |file| - o
  {
    if o >= |file| then 0 else (if IsSeparator(file[o]) then 1 else 0) + Separators(file, o + 1)
  }

  lemma {:induction false} SeparatorsOfField(file: seq<byte>, o: nat)
    requires HasSeparator(file, o)
    ensures Separators(file, o) == 1 + Separators(file, SeparatorAt(file, o) + 1)
    decreases |file| - o
  {
    if !IsSeparator(file[o]) { SeparatorsOfField(file, o + 1); }
  }

  lemma {:induction false} SeparatorsOfFields(file: seq<byte>, o: nat, n: nat)
    requires o <= |file| && FieldsFit(file, o, n)
    ensures Separators(file, o) == n + Separators(file, FieldsEnd(file, o, n))
    decreases n
  {
    if n > 0 {
      SeparatorsOfField(file, o);
      SeparatorsOfFields(file, SeparatorAt(file, o) + 1, n - 1);
    }
  }

  lemma {:induction false} SeparatorsOfRecords(sch: Schema, file: seq<byte>, o: nat)
    requires sch.columns > 0 && WholeRecords(sch, file, o)
    ensures Separators(file, o) == sch.columns * |RecordsFrom(sch, file, o)|
    decreases |file| - o
  {
    if o < |file| {
      var e := FieldsEnd(file, o, sch.columns);
      SeparatorsOfFields(file, o, sch.columns);
      SeparatorsOfRecords(sch, file, e);
      OneMore(sch.columns, |RecordsFrom(sch, file, e)|);
    }
  }

  lemma OneMore(c: nat, k: nat)
    ensures c * (k + 1) == c * k + c
  {}

  /** Two offsets with as many separators to come are in the same field. */
  lemma {:induction false} SameField(file: seq<byte>, b: nat, o: nat)
    requires b <= o <= |file|
    ensures Separators(file, b) >= Separators(file, o)
    ensures Separators(file, b) == Separators(file, o) && HasSeparator(file, o) ==>
      HasSeparator(file, b) && SeparatorAt(file, b) == SeparatorAt(file, o)
    decreases o - b
  {
    if b < o { SameField(file, b + 1, o); }
  }

  lemma RecordSeparators(sch: Schema, file: seq<byte>, o: nat)
    requires sch.columns > 0 && WholeRecords(sch, file, o) && o < |file|
    ensures !EndsAt(file, o) && FieldsFit(file, o, sch.columns) && HasSeparator(file, o)
    ensures Separators(file, o) == sch.columns * |RecordsFrom(sch, file, o)|
    ensures var e := FieldsEnd(file, o, sch.columns);
      && o < e && Separators(file, o) == sch.columns + Separators(file, e)
      && Separators(file, e - 1) == 1 + Separators(file, e)
  {
    hide RecordsFrom, Readable;
    SeparatorsOfRecords(sch, file, o);
    SeparatorsOfFields(file, o, sch.columns);
    FieldsEndAfterSeparator(file, o, sch.columns);
  }

  lemma SameFieldsEnd(file: seq<byte>, b: nat, o: nat, n: nat)
    requires b <= |file| && o <= |file| && n > 0 && FieldsFit(file, b, n) && FieldsFit(file, o, n)
    requires SeparatorAt(file, b) == SeparatorAt(file, o)
    ensures FieldsEnd(file, b, n) == FieldsEnd(file, o, n)
  {}

  /** Whole records can only start inside the first field of a record, and end where it ends. */
  lemma SameRecord(sch: Schema, file: seq<byte>, b: nat, o: nat)
    requires sch.columns > 0 && b <= o < |file| && WholeRecords(sch, file, b) && WholeRecords(sch, file, o)
    requires FieldsFit(file, b, sch.columns) && o < FieldsEnd(file, b, sch.columns)
    ensures FieldsFit(file, o, sch.columns)
    ensures FieldsEnd(file, o, sch.columns) == FieldsEnd(file, b, sch.columns)
    ensures |RecordsFrom(sch, file, o)| == |RecordsFrom(sch, file, b)|
  {
    hide WholeRecords, RecordsFrom, Readable, FieldsFit, FieldsEnd, Separators, SeparatorAt;
    RecordSeparators(sch, file, b);
    RecordSeparators(sch, file, o);
    SameField(file, o, FieldsEnd(file, b, sch.columns) - 1);
    SameField(file, b, o);
    SameMultiple(sch.columns, |RecordsFrom(sch, file, o)|, |RecordsFrom(sch, file, b)|);
    SameFieldsEnd(file, b, o, sch.columns);
  }

  lemma SameMultiple(c: nat, k: nat, m: nat)
    requires c * m - c < c * k <= c * m
    ensures k == m
  {
    if k < m { AtLeast(c, k + 1, m); OneMore(c, k); }
    if k > m { AtLeast(c, m + 1, k); OneMore(c, m); }
  }

  lemma {:induction false} AtLeast(c: nat, k: nat, m: nat)
    requires k <= m
    ensures c * k <= c * m
  {
    if k < m {
      AtLeast(c, k, m - 1);
      OneMore(c, m - 1);
    }
  }

  // ---------------------------------------------------------------- what is left from a record on

  ghost predicate IsSuffix(q: seq<Record>, all: seq<Record>)
  {
    |q| <= |all| && q == all[|all| - |q|..]
  }

  lemma SuffixOfSum(a: seq<Record>, q: seq<Record>, all: seq<Record>)
    requires IsSuffix(a + q, all)
    ensures IsSuffix(q, all)
  {}

  lemma {:induction false} FilesAreSuffix(sch: Schema, files: seq<seq<byte>>, h: nat)
    requires FilesOk(sch, files) && h <= |files|
    ensures IsSuffix(FilesFrom(sch, files, h), FilesFrom(sch, files, 0))
  {
    if h > 0 {
      FilesAreSuffix(sch, files, h - 1);
      SuffixOfSum(RecordsFrom(sch, files[h - 1], 0), FilesFrom(sch, files, h), FilesFrom(sch, files, 0));
    }
  }

  lemma {:induction false} RestIsSuffix(sch: Schema, files: seq<seq<byte>>, all: seq<Record>, h: nat, from: nat, o: nat)
    requires Position(sch, files, h, from) && WholeRecords(sch, files[h], from) && from <= o < |files[h]|
    requires IsSuffix(Rest(sch, files, h, from), all)
    ensures IsSuffix(Rest(sch, files, h, StartOf(sch, files[h], from, o)), all)
    decreases |files[h]| - from
  {
    var file := files[h];
    if o >= FieldsEnd(file, from, sch.columns) {
      var e := FieldsEnd(file, from, sch.columns);
      assert Rest(sch, files, h, from) == [Cells(sch, file, from, 0, sch.columns)] + Rest(sch, files, h, e);
      SuffixOfSum([Cells(sch, file, from, 0, sch.columns)], Rest(sch, files, h, e), all);
      RestIsSuffix(sch, files, all, h, e, o);
    }
  }

  /** From a record's start, reading goes on with that record. */
  lemma StartIsPosition(sch: Schema, files: seq<seq<byte>>, all: seq<Record>, h: nat, o: nat)
    requires FilesOk(sch, files) && h < |files| && all == FilesFrom(sch, files, 0) && o < |files[h]|
    ensures var b := StartOf(sch, files[h], 0, o);
      At(sch, files, all, h, b, |all| - |Rest(sch, files, h, b)|)
  {
    hide WholeRecords, RecordsFrom, StartOf;
    FilesAreSuffix(sch, files, h);
    assert Rest(sch, files, h, 0) == FilesFrom(sch, files, h);
    RestIsSuffix(sch, files, all, h, 0, o);
  }

  // ---------------------------------------------------------------- the two stores

  /**
   After the first store of a commit from (h, o) to a position in file h', a restart
   stands at one of the first m records, or just behind them, if and only if the file
   has not changed or the old offset serves in the new one.  The caller's m is the
   number of records the table stands for.
   */
  lemma HalfCommitServesIff(sch: Schema, files: seq<seq<byte>>, all: seq<Record>,
                            h: nat, o: nat, c: nat, h': nat, m: nat)
    requires FilesOk(sch, files) && all == FilesFrom(sch, files, 0) && h' < |files|
    requires At(sch, files, all, h, o, c) && c <= m <= |all|
    ensures (exists p | 0 <= p <= m :: At(sch, files, all, h', o, p)) <==>
      h' == h || OffsetServes(sch, files, h', o, |all| - m)
  {
    if h' == h {
      assert At(sch, files, all, h', o, c);
    } else if EndsAt(files[h'], o) {
      SeemsToEnd(sch, files, all, h', o, m);
    } else if WholeRecords(sch, files[h'], o) {
      InsideFile(sch, files, all, h', o, m);
    } else if Readable(sch, files[h'], o) {
      StopsEarly(sch, files, all, h', o, m);
    }
  }

  /** An offset at the end of the file or beyond it, or in front of a byte 0xFF, leaves the files that follow. */
  lemma SeemsToEnd(sch: Schema, files: seq<seq<byte>>, all: seq<Record>, h: nat, o: nat, m: nat)
    requires FilesOk(sch, files) && all == FilesFrom(sch, files, 0)
    requires h < |files| && EndsAt(files[h], o) && m <= |all|
    ensures At(sch, files, all, h, o, |all| - |FilesFrom(sch, files, h + 1)|)
    ensures (exists p | 0 <= p <= m :: At(sch, files, all, h, o, p)) <==> OffsetServes(sch, files, h, o, |all| - m)
  {
    FilesAreSuffix(sch, files, h + 1);
    var p := |all| - |FilesFrom(sch, files, h + 1)|;
    assert At(sch, files, all, h, o, p);
    forall q | 0 <= q <= m && At(sch, files, all, h, o, q) ensures q == p {
      assert |Rest(sch, files, h, o)| == |all| - q;
    }
  }

  /** Reading from inside a record's first field differs from reading the record in that record only. */
  lemma ReadsTheSame(sch: Schema, files: seq<seq<byte>>, h: nat, o: nat)
    requires FilesOk(sch, files) && h < |files| && o < |files[h]| && WholeRecords(sch, files[h], o)
    ensures var b := StartOf(sch, files[h], 0, o);
      && |Rest(sch, files, h, o)| == |Rest(sch, files, h, b)|
      && (Rest(sch, files, h, o) == Rest(sch, files, h, b) <==>
            b == o || Cells(sch, files[h], o, 0, sch.columns) == Cells(sch, files[h], b, 0, sch.columns))
  {
    hide FilesFrom, Cells, StartOf, WholeRecords, RecordsFrom, FieldsEnd, FieldsFit, Rest;
    var file := files[h];
    var b := StartOf(sch, file, 0, o);
    if b < o {
      NotAtEnd(sch, file, o);
      NotAtEnd(sch, file, b);
      SameRecord(sch, file, b, o);
      RestNext(sch, files, h, o);
      RestNext(sch, files, h, b);
      SameHeads(Cells(sch, file, o, 0, sch.columns), Cells(sch, file, b, 0, sch.columns),
        Rest(sch, files, h, FieldsEnd(file, b, sch.columns)));
    }
  }

  lemma NotAtEnd(sch: Schema, file: seq<byte>, o: nat)
    requires sch.columns > 0 && WholeRecords(sch, file, o) && o < |file|
    ensures !EndsAt(file, o) && Readable(sch, file, o) && FieldsFit(file, o, sch.columns)
  {}

  lemma SameHeads(x: Record, y: Record, rest: seq<Record>)
    ensures [x] + rest == [y] + rest <==> x == y
  {
    assert ([x] + rest)[0] == x && ([y] + rest)[0] == y;
  }

  lemma InsideFile(sch: Schema, files: seq<seq<byte>>, all: seq<Record>, h: nat, o: nat, m: nat)
    requires FilesOk(sch, files) && all == FilesFrom(sch, files, 0) && m <= |all|
    requires h < |files| && !EndsAt(files[h], o) && WholeRecords(sch, files[h], o)
    ensures (exists p | 0 <= p <= m :: At(sch, files, all, h, o, p)) <==> OffsetServes(sch, files, h, o, |all| - m)
  {
    hide FilesFrom, WholeRecords, RecordsFrom, StartOf, FieldsFit, Cells;
    StartIsPosition(sch, files, all, h, o);
    ReadsTheSame(sch, files, h, o);
    var p := |all| - |Rest(sch, files, h, o)|;
    if OffsetServes(sch, files, h, o, |all| - m) {
      assert At(sch, files, all, h, o, p) && p <= m;
    }
    forall q | 0 <= q <= m && At(sch, files, all, h, o, q) ensures OffsetServes(sch, files, h, o, |all| - m) {
      assert |Rest(sch, files, h, o)| == |all| - q;
      assert q == p;
    }
  }

  // ---------------------------------------------------------------- stopped by a byte 0xFF

  lemma {:induction false} SeparatorsAtLeast(sch: Schema, file: seq<byte>, o: nat)
    requires sch.columns > 0 && Readable(sch, file, o)
    ensures Separators(file, o) >= sch.columns * |RecordsFrom(sch, file, o)|
    decreases |file| - o
  {
    if !EndsAt(file, o) {
      var e := FieldsEnd(file, o, sch.columns);
      SeparatorsOfFields(file, o, sch.columns);
      SeparatorsAtLeast(sch, file, e);
      OneMore(sch.columns, |RecordsFrom(sch, file, e)|);
    }
  }

  /** However reading starts, it meets no more records than the file has. */
  lemma NoMoreRecords(sch: Schema, file: seq<byte>, o: nat)
    requires sch.columns > 0 && WholeRecords(sch, file, 0) && Readable(sch, file, o) && o <= |file|
    ensures |RecordsFrom(sch, file, o)| <= |RecordsFrom(sch, file, 0)|
  {
    var k, m := |RecordsFrom(sch, file, o)|, |RecordsFrom(sch, file, 0)|;
    SeparatorsAtLeast(sch, file, o);
    SeparatorsOfRecords(sch, file, 0);
    SameField(file, 0, o);
    if k > m {
      AtLeast(sch.columns, m + 1, k);
      OneMore(sch.columns, m);
    }
  }

  lemma SuffixInFile(r: seq<Record>, q: seq<Record>, f: seq<Record>, all: seq<Record>)
    requires IsSuffix(q + f, all) && |r| <= |q|
    ensures IsSuffix(r + f, all) <==> IsSuffix(r, q)
  {
    var p := |all| - |q + f|;
    var d := |q| - |r|;
    assert all[p + d..] == (q + f)[d..] == q[d..] + f;
    if r + f == q[d..] + f {
      assert r == (r + f)[..|r|] == (q[d..] + f)[..|r|] == q[d..];
    }
  }

  lemma StopsEarly(sch: Schema, files: seq<seq<byte>>, all: seq<Record>, h: nat, o: nat, m: nat)
    requires FilesOk(sch, files) && all == FilesFrom(sch, files, 0) && m <= |all|
    requires h < |files| && !EndsAt(files[h], o)
    requires Readable(sch, files[h], o) && !WholeRecords(sch, files[h], o)
    ensures (exists p | 0 <= p <= m :: At(sch, files, all, h, o, p)) <==> OffsetServes(sch, files, h, o, |all| - m)
  {
    hide WholeRecords, RecordsFrom, Readable, StartOf, Cells;
    var r, q, f := RecordsFrom(sch, files[h], o), RecordsFrom(sch, files[h], 0), FilesFrom(sch, files, h + 1);
    FilesAreSuffix(sch, files, h);
    NoMoreRecords(sch, files[h], o);
    SuffixInFile(r, q, f, all);
    var p := |all| - |r + f|;
    if OffsetServes(sch, files, h, o, |all| - m) {
      assert At(sch, files, all, h, o, p) && p <= m;
    }
    forall i | 0 <= i <= m && At(sch, files, all, h, o, i) ensures OffsetServes(sch, files, h, o, |all| - m) {
      assert |Rest(sch, files, h, o)| == |all| - i;
      assert i == p;
    }
  }

  // ---------------------------------------------------------------- a kill that hurts

  const LETTER_A: byte := 97
  const LETTER_C: byte := 99
  const FIRST_FILE: seq<byte> := [LETTER_A, NEWLINE, LETTER_A, NEWLINE]
  const SECOND_FILE: seq<byte> := [LETTER_C, LETTER_C, NEWLINE, LETTER_C, LETTER_C, NEWLINE]
  const RECORD_A: Record := [[LETTER_A]]
  const RECORD_CC: Record := [[LETTER_C, LETTER_C]]

  /** One column, which is the key; no record is newer than another. */
  const ONE_COLUMN: Schema := Schema(1, {0}, {}, s => s, (a, b) => false, s => |s|)

  /** A field of a one-column file. */
  lemma OneField(file: seq<byte>, o: nat, i: nat)
    requires o <= i < |file| && IsSeparator(file[i]) && file[o] != ALL_ONES
    requires forall j | o <= j < i :: !IsSeparator(file[j])
    requires WholeRecords(ONE_COLUMN, file, i + 1)
    ensures WholeRecords(ONE_COLUMN, file, o) && FieldsFit(file, o, 1) && FieldsEnd(file, o, 1) == i + 1
    ensures Cells(ONE_COLUMN, file, o, 0, 1) == [file[o..i]]
    ensures RecordsFrom(ONE_COLUMN, file, o) == [[file[o..i]]] + RecordsFrom(ONE_COLUMN, file, i + 1)
  {
    assert SeparatorAt(file, o) == i;
    assert FieldsFit(file, i + 1, 0);
  }

  const TWO_FILES: seq<seq<byte>> := [FIRST_FILE, SECOND_FILE]
  const FOUR_RECORDS: seq<Record> := [RECORD_A, RECORD_A, RECORD_CC, RECORD_CC]

  lemma FirstFileHas()
    ensures WholeRecords(ONE_COLUMN, FIRST_FILE, 0) && WholeRecords(ONE_COLUMN, FIRST_FILE, 4)
    ensures RecordsFrom(ONE_COLUMN, FIRST_FILE, 0) == [RECORD_A, RECORD_A]
    ensures RecordsFrom(ONE_COLUMN, FIRST_FILE, 4) == []
  {
    OneField(FIRST_FILE, 2, 3);
    OneField(FIRST_FILE, 0, 1);
    assert FIRST_FILE[2..3] == FIRST_FILE[0..1] == [LETTER_A];
  }

  lemma SecondFileHas()
    ensures WholeRecords(ONE_COLUMN, SECOND_FILE, 0) && WholeRecords(ONE_COLUMN, SECOND_FILE, 3)
    ensures WholeRecords(ONE_COLUMN, SECOND_FILE, 4)
    ensures RecordsFrom(ONE_COLUMN, SECOND_FILE, 0) == [RECORD_CC, RECORD_CC]
    ensures RecordsFrom(ONE_COLUMN, SECOND_FILE, 3) == [RECORD_CC]
    ensures RecordsFrom(ONE_COLUMN, SECOND_FILE, 4) == [[[LETTER_C]]]
    ensures Cells(ONE_COLUMN, SECOND_FILE, 4, 0, 1) == [[LETTER_C]]
    ensures Cells(ONE_COLUMN, SECOND_FILE, 3, 0, 1) == RECORD_CC
    ensures StartOf(ONE_COLUMN, SECOND_FILE, 0, 4) == 3
  {
    OneField(SECOND_FILE, 4, 5);
    OneField(SECOND_FILE, 3, 5);
    OneField(SECOND_FILE, 0, 2);
    assert SECOND_FILE[4..5] == [LETTER_C] && SECOND_FILE[3..5] == SECOND_FILE[0..2] == [LETTER_C, LETTER_C];
  }

  /** The second record of each file is a duplicate of the first; both are set aside at some time. */
  lemma TwoFilesHave()
    ensures FilesOk(ONE_COLUMN, TWO_FILES) && FilesFrom(ONE_COLUMN, TWO_FILES, 0) == FOUR_RECORDS
    ensures At(ONE_COLUMN, TWO_FILES, FOUR_RECORDS, 0, 4, 2) && At(ONE_COLUMN, TWO_FILES, FOUR_RECORDS, 1, 3, 3)
  {
    FirstFileHas();
    SecondFileHas();
    hide WholeRecords, RecordsFrom;
    assert FilesFrom(ONE_COLUMN, TWO_FILES, 2) == [];
    assert FilesFrom(ONE_COLUMN, TWO_FILES, 1) == [RECORD_CC, RECORD_CC];
    assert FOUR_RECORDS[2..] == [RECORD_CC, RECORD_CC] && FOUR_RECORDS[3..] == [RECORD_CC];
  }

  /**
   A kill between the two stores of the commit that moves from (0, 4) to (1, 3) leaves
   (1, 4), in the middle of a record: a restart reads a record that no file has.
   */
  lemma KilledInCommit()
    ensures FilesOk(ONE_COLUMN, TWO_FILES) && FilesFrom(ONE_COLUMN, TWO_FILES, 0) == FOUR_RECORDS
    ensures !exists p | 0 <= p <= 3 :: At(ONE_COLUMN, TWO_FILES, FOUR_RECORDS, 1, 4, p)
    ensures Position(ONE_COLUMN, TWO_FILES, 1, 4) && Rest(ONE_COLUMN, TWO_FILES, 1, 4) == [[[LETTER_C]]]
    ensures [[LETTER_C]] !in FOUR_RECORDS
  {
    TwoFilesHave();
    SecondFileHas();
    hide WholeRecords, RecordsFrom, StartOf, At, Cells;
    HalfCommitServesIff(ONE_COLUMN, TWO_FILES, FOUR_RECORDS, 0, 4, 2, 1, 3);
    assert FilesFrom(ONE_COLUMN, TWO_FILES, 2) == [];
  }

  /** The caller's moves up to that commit: three rounds, and the fourth statement executed. */
  const ONE_ROUND: seq<Event> := [Ask, Run, Acknowledge]
  const UP_TO_THE_COMMIT: seq<Event> := ONE_ROUND + ONE_ROUND + ONE_ROUND + [Ask, Run]

  function Go(s: System, e: Event): System
    requires BuilderOk(FOUR_RECORDS, s.builder)
    ensures BuilderOk(FOUR_RECORDS, Go(s, e).builder)
  {
    Step(ONE_COLUMN, FOUR_RECORDS, s, e)
  }

  function GoAll(s: System, events: seq<Event>): (r: System)
    requires BuilderOk(FOUR_RECORDS, s.builder)
    ensures BuilderOk(FOUR_RECORDS, r.builder)
  {
    RunEvents(ONE_COLUMN, FOUR_RECORDS, s, events)
  }

  lemma {:induction false} GoOn(s: System, a: seq<Event>, b: seq<Event>)
    requires BuilderOk(FOUR_RECORDS, s.builder)
    ensures GoAll(s, a + b) == GoAll(GoAll(s, a), b)
  {
    hide Step;
    if b == [] {
      assert a + b == a;
    } else {
      GoOn(s, a, b[..|b| - 1]);
      assert (a + b)[..|a + b| - 1] == a + b[..|b| - 1] && (a + b)[|a + b| - 1] == b[|b| - 1];
    }
  }

  lemma GoThrice(s: System)
    requires BuilderOk(FOUR_RECORDS, s.builder)
    ensures GoAll(s, ONE_ROUND) == Go(Go(Go(s, Ask), Run), Acknowledge)
    ensures GoAll(s, [Ask, Run]) == Go(Go(s, Ask), Run)
  {
    hide Step;
    assert ONE_ROUND[..2] == [Ask, Run] && [Ask, Run][..1] == [Ask] && [Ask][..0] == [];
    assert GoAll(s, []) == s && GoAll(s, [Ask]) == Go(s, Ask) && GoAll(s, [Ask, Run]) == Go(Go(s, Ask), Run);
  }

  const ONE_ROW: Rows := map[[[LETTER_A]] := RECORD_A]

  lemma HashesOfBoth()
    ensures ONE_COLUMN.KeyOf(RECORD_A) == RECORD_A && ONE_COLUMN.KeyOf(RECORD_CC) == RECORD_CC
    ensures ONE_COLUMN.HashOf(RECORD_A) == 1 && ONE_COLUMN.HashOf(RECORD_CC) == 2
  {
    assert RECORD_A[..0] == [] && RECORD_CC[..0] == [];
    assert ONE_COLUMN.UniqueColumns([]) == [];
    assert ONE_COLUMN.UniqueColumns(RECORD_A) == [RECORD_A[0]] && ONE_COLUMN.UniqueColumns(RECORD_CC) == [RECORD_CC[0]];
    assert Flatten([]) == [] && Flatten(RECORD_A) == [LETTER_A] && Flatten(RECORD_CC) == [LETTER_C, LETTER_C];
  }

  lemma FirstGathering()
    ensures Gather(ONE_COLUMN, FOUR_RECORDS, {}, 0, 0) == Gathered({1}, 2, Duplicate)
    ensures Gather(ONE_COLUMN, FOUR_RECORDS, {1}, 2, 0) == Gathered({1, 2}, 4, Duplicate)
  {
    HashesOfBoth();
    OneThenDuplicate({}, 0);
    OneThenDuplicate({1}, 2);
    assert {} + {1} == {1} && {1} + {2} == {1, 2};
  }

  /** A new record and then the same once more. */
  lemma OneThenDuplicate(inserted: set<nat>, pos: nat)
    requires pos + 1 < |FOUR_RECORDS| && FOUR_RECORDS[pos] == FOUR_RECORDS[pos + 1]
    requires ONE_COLUMN.HashOf(FOUR_RECORDS[pos]) !in inserted
    ensures Gather(ONE_COLUMN, FOUR_RECORDS, inserted, pos, 0)
         == Gathered(inserted + {ONE_COLUMN.HashOf(FOUR_RECORDS[pos])}, pos + 2, Duplicate)
  {
    var h := ONE_COLUMN.HashOf(FOUR_RECORDS[pos]);
    assert Gather(ONE_COLUMN, FOUR_RECORDS, inserted + {h}, pos + 1, 1) == Gathered(inserted + {h}, pos + 2, Duplicate);
  }

  lemma InsertOne(t: Rows, r: Record)
    requires ONE_COLUMN.KeyOf(r) !in t
    ensures InsertRows(ONE_COLUMN, t, [r]) == Some(t[ONE_COLUMN.KeyOf(r) := r])
  {
    assert [r][..0] == [];
    assert InsertRows(ONE_COLUMN, t, []) == Some(t);
  }

  /** Asking with nothing owed, up to the first duplicate after one new record. */
  lemma AskForOne(s: System, r: Record, g: Gathered)
    requires BuilderOk(FOUR_RECORDS, s.builder) && s.phase == Idle && !s.builder.tmp && !s.builder.insertPending
    requires g == Gather(ONE_COLUMN, FOUR_RECORDS, s.builder.inserted, s.builder.pos, 0)
    requires g.stop == Duplicate && g.pos == s.builder.pos + 2 && FOUR_RECORDS[s.builder.pos] == r
    ensures Go(s, Ask) == s.(builder := s.builder.(inserted := g.inserted, pos := g.pos, tmp := true),
                             phase := Issued(BulkInsert([r])))
  {
    hide Gather;
    assert FOUR_RECORDS[s.builder.pos..g.pos - 1] == [r];
  }

  lemma RunOneRow(s: System, r: Record)
    requires BuilderOk(FOUR_RECORDS, s.builder) && s.phase == Issued(BulkInsert([r])) && ONE_COLUMN.KeyOf(r) !in s.table
    ensures Go(s, Run) == s.(table := s.table[ONE_COLUMN.KeyOf(r) := r], phase := Executed, applied := s.applied + 1)
  {
    hide InsertRows;
    InsertOne(s.table, r);
  }

  lemma RoundOne()
    ensures GoAll(INITIAL, ONE_ROUND) == System(ONE_ROW, Builder({1}, 1, 2, true, false), Idle, 1)
  {
    HashesOfBoth();
    FirstGathering();
    hide Step, Gather, GoAll;
    GoThrice(INITIAL);
    AskForOne(INITIAL, RECORD_A, Gathered({1}, 2, Duplicate));
    RunOneRow(Go(INITIAL, Ask), RECORD_A);
    Stored(Go(Go(INITIAL, Ask), Run));
  }

  lemma Stored(s: System)
    requires BuilderOk(FOUR_RECORDS, s.builder) && s.phase == Executed
    ensures Go(s, Acknowledge) == s.(builder := Commit(FOUR_RECORDS, s.builder), phase := Idle)
  {}

  lemma RoundTwo()
    ensures GoAll(System(ONE_ROW, Builder({1}, 1, 2, true, false), Idle, 1), ONE_ROUND)
         == System(ONE_ROW, Builder({1}, 1, 2, false, true), Idle, 2)
  {
    HashesOfBoth();
    GoThrice(System(ONE_ROW, Builder({1}, 1, 2, true, false), Idle, 1));
  }

  lemma RoundThree()
    ensures GoAll(System(ONE_ROW, Builder({1}, 1, 2, false, true), Idle, 2), ONE_ROUND)
         == System(ONE_ROW, Builder({1}, 2, 2, false, false), Idle, 2)
  {
    HashesOfBoth();
    GoThrice(System(ONE_ROW, Builder({1}, 1, 2, false, true), Idle, 2));
  }

  /** That commit is reached: the builder is committed at 2, and the commit would store 3. */
  lemma CommitIsReached()
    ensures var s := RunEvents(ONE_COLUMN, FOUR_RECORDS, INITIAL, UP_TO_THE_COMMIT);
      && Storing(s) && s.builder.committed == 2 && Commit(FOUR_RECORDS, s.builder).committed == 3
      && Step(ONE_COLUMN, FOUR_RECORDS, s, CrashWhileCommitting(None)).phase == Derailed
  {
    RoundOne();
    RoundTwo();
    RoundThree();
    GoOn(INITIAL, ONE_ROUND, ONE_ROUND);
    GoOn(INITIAL, ONE_ROUND + ONE_ROUND, ONE_ROUND);
    GoOn(INITIAL, ONE_ROUND + ONE_ROUND + ONE_ROUND, [Ask, Run]);
    LastRound();
  }

  lemma LastRound()
    ensures var s := GoAll(System(ONE_ROW, Builder({1}, 2, 2, false, false), Idle, 2), [Ask, Run]);
      Storing(s) && s.builder == Builder({1, 2}, 2, 4, true, false)
  {
    HashesOfBoth();
    FirstGathering();
    hide Step, Gather, GoAll;
    var s := System(ONE_ROW, Builder({1}, 2, 2, false, false), Idle, 2);
    GoThrice(s);
    AskForOne(s, RECORD_CC, Gathered({1, 2}, 4, Duplicate));
    RunOneRow(Go(s, Ask), RECORD_CC);
  }
}
