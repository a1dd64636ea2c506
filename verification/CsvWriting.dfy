/**
 Files as they are written: fields with a comma between them and a newline behind the
 last one.  Reading gives back what was written, the float columns normalised.
 */
module CsvWriting {
  import opened Bytes
  import opened ImportModel
  import opened ImportSafety
  import opened CsvFile
  import opened RobinHoodSlots
  import opened Xxh3
  import opened QueryBuilding
  import opened ImportRun

  /** Fields that hold neither a comma nor a newline, as many as there are columns; no line starts with a byte 0xFF. */
  ghost predicate Writable(columns: nat, fields: Record)
  {
    && |fields| == columns
    && (forall i | 0 <= i < |fields| :: 44 !in fields[i] && 10 !in fields[i])
    && (fields[0] != [] ==> fields[0][0] != 255)
  }

  function Line(fields: Record): (r: seq<byte>)
    ensures r != []
  {
    if |fields| == 1 then fields[0] + [10] else fields[0] + [44] + Line(fields[1..])
  }

  function Lines(records: seq<Record>): seq<byte>
  {
    if records == [] then [] else Line(records[0]) + Lines(records[1..])
  }

  /** The records of several files, in order. */
  function Joined(tables: seq<seq<Record>>): seq<Record>
  {
    if tables == [] then [] else tables[0] + Joined(tables[1..])
  }

  // ---------------------------------------------------------------- reading back

  /** A field ends at the first comma or newline. */
  lemma FieldReads(file: seq<byte>, o: nat, f: seq<byte>)
    requires o + |f| < |file| && file[o..o + |f|] == f && 44 !in f && 10 !in f
    requires file[o + |f|] == 44 || file[o + |f|] == 10
    ensures HasSeparator(file, o) && SeparatorAt(file, o) == o + |f| && Field(file, o) == f
  {
    forall j | o <= j < o + |f| ensures !IsSeparator(file[j]) {
      assert file[j] == f[j - o];
    }
  }

  /** One field and the rest of its line. */
  lemma FieldsStep(sch: Schema, file: seq<byte>, o: nat, column: nat, n: nat)
    requires HasSeparator(file, o) && FieldsFit(file, SeparatorAt(file, o) + 1, n)
    ensures var next := SeparatorAt(file, o) + 1;
      && FieldsFit(file, o, n + 1) && FieldsEnd(file, o, n + 1) == FieldsEnd(file, next, n)
      && var value := Field(file, o);
         Cells(sch, file, o, column, n + 1) ==
         [if column in sch.floats then sch.normalize(value) else value] + Cells(sch, file, next, column + 1, n)
  {}

  lemma NoFields(sch: Schema, file: seq<byte>, o: nat, column: nat)
    requires o <= |file|
    ensures FieldsFit(file, o, 0) && FieldsEnd(file, o, 0) == o && Cells(sch, file, o, column, 0) == []
  {}

  lemma LineIs(fields: Record)
    ensures |fields| == 1 ==> Line(fields) == fields[0] + [10] + []
    ensures |fields| > 1 ==> Line(fields) == fields[0] + [44] + Line(fields[1..])
  {}

  lemma LineSplits(file: seq<byte>, o: nat, fields: Record)
    requires o + |Line(fields)| <= |file| && file[o..o + |Line(fields)|] == Line(fields)
    ensures var next := o + |fields[0]| + 1;
      && next <= |file| && file[o..next - 1] == fields[0] && file[next - 1] == (if |fields| == 1 then 10 else 44)
      && if |fields| == 1 then next == o + |Line(fields)|
         else
           && next + |Line(fields[1..])| == o + |Line(fields)|
           && file[next..next + |Line(fields[1..])|] == Line(fields[1..])
  {
    hide Line;
    LineIs(fields);
    var rest := if |fields| == 1 then [] else Line(fields[1..]);
    ThreeParts(file, o, fields[0], if |fields| == 1 then [10] else [44], rest);
  }

  lemma ThreeParts(file: seq<byte>, o: nat, a: seq<byte>, b: seq<byte>, c: seq<byte>)
    requires o + |a + b + c| <= |file| && file[o..o + |a + b + c|] == a + b + c && |b| == 1
    ensures file[o..o + |a|] == a && file[o + |a|] == b[0]
    ensures file[o + |a| + 1..o + |a| + 1 + |c|] == c && |a + b + c| == |a| + 1 + |c|
  {
    var line := file[o..o + |a + b + c|];
    assert line[..|a|] == a && line[|a|] == b[0] && line[|a| + 1..] == c;
  }

  /** The cell that a field is read as in a column. */
  ghost predicate ReadAs(sch: Schema, column: nat, field: seq<byte>, cell: seq<byte>)
  {
    cell == if column in sch.floats then sch.normalize(field) else field
  }

  /** A line: all its fields, up to its end. */
  lemma {:induction false} LineReads(sch: Schema, file: seq<byte>, o: nat, column: nat, fields: Record)
    requires forall i | 0 <= i < |fields| :: 44 !in fields[i] && 10 !in fields[i]
    requires o + |Line(fields)| <= |file| && file[o..o + |Line(fields)|] == Line(fields)
    ensures FieldsFit(file, o, |fields|) && FieldsEnd(file, o, |fields|) == o + |Line(fields)|
    ensures forall i | 0 <= i < |fields| ::
      ReadAs(sch, column + i, fields[i], Cells(sch, file, o, column, |fields|)[i])
    decreases |fields|
  {
    hide FieldsFit, FieldsEnd, Cells, Line, HasSeparator, SeparatorAt, Field;
    var n := |fields|;
    LineSplits(file, o, fields);
    FieldReads(file, o, fields[0]);
    var next := o + |fields[0]| + 1;
    NoFields(sch, file, next, column + 1);
    if n > 1 { LineReads(sch, file, next, column + 1, fields[1..]); }
    FieldsStep(sch, file, o, column, n - 1);
    forall i | 0 < i < n ensures ReadAs(sch, column + i, fields[i], Cells(sch, file, o, column, n)[i]) {
      assert fields[i] == fields[1..][i - 1];
      assert ReadAs(sch, column + 1 + (i - 1), fields[1..][i - 1], Cells(sch, file, next, column + 1, n - 1)[i - 1]);
    }
  }

  lemma LinesSplit(file: seq<byte>, o: nat, records: seq<Record>)
    requires o <= |file| && file[o..] == Lines(records) && records != []
    ensures var next := o + |Line(records[0])|;
      && o < next <= |file| && file[o..next] == Line(records[0]) && file[next..] == Lines(records[1..])
      && file[o] == Line(records[0])[0]
  {
    var line := Line(records[0]);
    assert file[o..][..|line|] == line && file[o..][|line|..] == Lines(records[1..]);
    assert file[o] == file[o..][0];
  }

  lemma RecordStep(sch: Schema, file: seq<byte>, o: nat)
    requires sch.columns > 0 && o < |file| && file[o] != 255 && FieldsFit(file, o, sch.columns)
    requires WholeRecords(sch, file, FieldsEnd(file, o, sch.columns))
    ensures WholeRecords(sch, file, o)
    ensures RecordsFrom(sch, file, o) ==
      [Cells(sch, file, o, 0, sch.columns)] + RecordsFrom(sch, file, FieldsEnd(file, o, sch.columns))
  {}

  /** The records read are those written, the cells of float columns normalised, the others as they are. */
  ghost predicate ReadBack(sch: Schema, written: seq<Record>, read: seq<Record>)
  {
    && |read| == |written|
    && forall i | 0 <= i < |written| ::
         && |read[i]| == |written[i]|
         && forall c | 0 <= c < |written[i]| ::
              read[i][c] == if c in sch.floats then sch.normalize(written[i][c]) else written[i][c]
  }

  lemma {:induction false} LinesRead(sch: Schema, file: seq<byte>, o: nat, records: seq<Record>)
    requires sch.columns > 0 && forall r | r in records :: Writable(sch.columns, r)
    requires o <= |file| && file[o..] == Lines(records)
    ensures WholeRecords(sch, file, o) && ReadBack(sch, records, RecordsFrom(sch, file, o))
    decreases |records|
  {
    hide FieldsFit, FieldsEnd, Cells, RecordsFrom, WholeRecords, Readable, Line, Lines, ReadBack, ReadAs;
    if records == [] {
      NoLines(sch, file, o);
    } else {
      var fields := records[0];
      assert fields in records && Writable(sch.columns, fields);
      LinesSplit(file, o, records);
      LineReads(sch, file, o, 0, fields);
      FirstByte(fields);
      LinesRead(sch, file, o + |Line(fields)|, records[1..]);
      RecordStep(sch, file, o);
      MoreReadBack(sch, fields, Cells(sch, file, o, 0, sch.columns), records[1..],
        RecordsFrom(sch, file, o + |Line(fields)|));
      assert [fields] + records[1..] == records;
    }
  }

  lemma NoLines(sch: Schema, file: seq<byte>, o: nat)
    requires sch.columns > 0 && o <= |file| && file[o..] == Lines([])
    ensures WholeRecords(sch, file, o) && ReadBack(sch, [], RecordsFrom(sch, file, o))
  {}

  lemma FirstByte(fields: Record)
    ensures Line(fields)[0] == if fields[0] != [] then fields[0][0] else if |fields| == 1 then 10 else 44
  {}

  lemma MoreReadBack(sch: Schema, fields: Record, cells: Record, written: seq<Record>, read: seq<Record>)
    requires |cells| == |fields| && (forall i | 0 <= i < |fields| :: ReadAs(sch, i, fields[i], cells[i]))
    requires ReadBack(sch, written, read)
    ensures ReadBack(sch, [fields] + written, [cells] + read)
  {}

  // ---------------------------------------------------------------- several files, and their import

  /** Files with at least one line each, written from records. */
  ghost predicate Written(sch: Schema, tables: seq<seq<Record>>, files: seq<seq<byte>>)
  {
    && |files| == |tables|
    && forall h | 0 <= h < |files| ::
         && tables[h] != [] && files[h] == Lines(tables[h])
         && forall r | r in tables[h] :: Writable(sch.columns, r)
  }

  /** The records of all files are read back in order. */
  lemma {:induction false} FilesRead(sch: Schema, tables: seq<seq<Record>>, files: seq<seq<byte>>, h: nat)
    requires sch.columns > 0 && Written(sch, tables, files) && h <= |files|
    ensures FilesOk(sch, files) && ReadBack(sch, Joined(tables[h..]), FilesFrom(sch, files, h))
    decreases |files| - h
  {
    hide Lines, WholeRecords, RecordsFrom, Readable, Writable;
    forall i | 0 <= i < |files| ensures files[i] != [] && WholeRecords(sch, files[i], 0) {
      OneFileReads(sch, tables[i], files[i]);
    }
    if h < |files| {
      FilesRead(sch, tables, files, h + 1);
      OneFileReads(sch, tables[h], files[h]);
      assert tables[h..][1..] == tables[h + 1..];
    }
  }

  lemma OneFileReads(sch: Schema, table: seq<Record>, file: seq<byte>)
    requires sch.columns > 0 && table != [] && file == Lines(table) && forall r | r in table :: Writable(sch.columns, r)
    ensures file != [] && WholeRecords(sch, file, 0) && ReadBack(sch, table, RecordsFrom(sch, file, 0))
  {
    assert file[0..] == file;
    LinesRead(sch, file, 0, table);
  }

  /** Reading back settles the records. */
  lemma ReadBackOnce(sch: Schema, written: seq<Record>, a: seq<Record>, b: seq<Record>)
    requires ReadBack(sch, written, a) && ReadBack(sch, written, b)
    ensures a == b
  {
    forall i | 0 <= i < |a| ensures a[i] == b[i] {
      assert |a[i]| == |b[i]| && forall c | 0 <= c < |a[i]| :: a[i][c] == b[i][c];
    }
  }

  /**
   An import of written files: the table is the last-write-wins fold of the records that
   were written, whatever the buffer size and the index function.
   */
  method ImportWritten<A>(sch: Schema, tables: seq<seq<Record>>, files: seq<seq<byte>>, bufferSize: nat,
                          kernel: Kernel<A>, raw: A, index: (nat, nat) -> nat) returns (table: Rows)
    requires sch.Valid() && Written(sch, tables, files) && files != [] && HashesWith(sch, kernel)
    requires forall read, i | ReadBack(sch, Joined(tables), read) && 0 <= i < |read| ::
      |Flatten(sch.KeyOf(read[i]))| < 0x1_0000_0000_0000_0000
    requires bufferSize >= 1 && InRange(index)
    ensures forall read: seq<Record> |
        && |read| == |Joined(tables)|
        && (forall i | 0 <= i < |read| ::
              && |read[i]| == |Joined(tables)[i]|
              && forall c | 0 <= c < |read[i]| ::
                   read[i][c] ==
                     if c in sch.floats then sch.normalize(Joined(tables)[i][c]) else Joined(tables)[i][c]) ::
      table == Fold(sch, read)
  {
    hide Written, FilesFrom, Fold, HashesWith, InRange, Joined;
    FilesRead(sch, tables, files, 0);
    assert tables[0..] == tables;
    table := ImportAll(sch, files, bufferSize, kernel, raw, index);
    forall read: seq<Record> | ReadBack(sch, Joined(tables), read) ensures table == Fold(sch, read) {
      ReadBackOnce(sch, Joined(tables), read, FilesFrom(sch, files, 0));
    }
  }
}
