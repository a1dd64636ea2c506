/** What a CSV file contains: fields up to the next comma or newline, grouped into records. */
module CsvFile {
  import opened Bytes
  import opened ImportModel

  const COMMA: byte := 44
  const NEWLINE: byte := 10

  /** The byte a signed char peek cannot tell from the end of the file. */
  const ALL_ONES: byte := 0xFF

  predicate IsSeparator(b: byte) { b == COMMA || b == NEWLINE }

  predicate HasSeparator(file: seq<byte>, o: nat)
  {
    exists i | o <= i < |file| :: IsSeparator(file[i])
  }

  /** The first separator at or after o. */
  function SeparatorAt(file: seq<byte>, o: nat): (i: nat)
    requires HasSeparator(file, o)
    ensures o <= i < |file| && IsSeparator(file[i])
    ensures forall j | o <= j < i :: !IsSeparator(file[j])
    decreases |file| - o
  {
    if IsSeparator(file[o]) then o else SeparatorAt(file, o + 1)
  }

  function Field(file: seq<byte>, o: nat): seq<byte>
    requires HasSeparator(file, o)
  {
    file[o..SeparatorAt(file, o)]
  }

  /** From o on the file has n fields. */
  predicate FieldsFit(file: seq<byte>, o: nat, n: nat)
    decreases n
  {
    n > 0 ==> HasSeparator(file, o) && FieldsFit(file, SeparatorAt(file, o) + 1, n - 1)
  }

  function FieldsEnd(file: seq<byte>, o: nat, n: nat): (e: nat)
    requires o <= |file| && FieldsFit(file, o, n)
    ensures o <= e <= |file| && (n > 0 ==> o < e)
    decreases n
  {
    if n == 0 then o else FieldsEnd(file, SeparatorAt(file, o) + 1, n - 1)
  }

  function Cell(sch: Schema, column: nat, value: seq<byte>): seq<byte>
  {
    if column in sch.floats then sch.normalize(value) else value
  }

  /** n cells from o on, the first of them in the given column. */
  function Cells(sch: Schema, file: seq<byte>, o: nat, column: nat, n: nat): (r: seq<seq<byte>>)
    requires o <= |file| && FieldsFit(file, o, n)
    ensures |r| == n
    decreases n
  {
    if n == 0 then []
    else [Cell(sch, column, Field(file, o))] + Cells(sch, file, SeparatorAt(file, o) + 1, column + 1, n - 1)
  }

  /** What peek takes for the end of the file. */
  predicate EndsAt(file: seq<byte>, o: nat)
  {
    o >= |file| || file[o] == ALL_ONES
  }

  /** From any offset o, beyond the end as well, reading records comes to what peek takes for the end. */
  predicate Readable(sch: Schema, file: seq<byte>, o: nat)
    requires sch.columns > 0
    decreases |file| - o
  {
    EndsAt(file, o) || (FieldsFit(file, o, sch.columns) && Readable(sch, file, FieldsEnd(file, o, sch.columns)))
  }

  /** From o on the file is a number of whole records, none of which looks like its end. */
  predicate WholeRecords(sch: Schema, file: seq<byte>, o: nat): (whole: bool)
    requires sch.columns > 0
    ensures whole ==> Readable(sch, file, o)
    decreases |file| - o
  {
    && o <= |file|
    && (o < |file| ==>
          && file[o] != ALL_ONES
          && FieldsFit(file, o, sch.columns)
          && WholeRecords(sch, file, FieldsEnd(file, o, sch.columns)))
  }

  function RecordsFrom(sch: Schema, file: seq<byte>, o: nat): seq<Record>
    requires sch.columns > 0 && Readable(sch, file, o)
    decreases |file| - o
  {
    if EndsAt(file, o) then []
    else [Cells(sch, file, o, 0, sch.columns)] + RecordsFrom(sch, file, FieldsEnd(file, o, sch.columns))
  }

  predicate FilesOk(sch: Schema, files: seq<seq<byte>>)
  {
    && sch.columns > 0
    && forall i | 0 <= i < |files| :: files[i] != [] && WholeRecords(sch, files[i], 0)
  }

  function FilesFrom(sch: Schema, files: seq<seq<byte>>, h: nat): seq<Record>
    requires FilesOk(sch, files) && h <= |files|
    decreases |files| - h
  {
    if h == |files| then [] else RecordsFrom(sch, files[h], 0) + FilesFrom(sch, files, h + 1)
  }

  /** A (file, offset) pair from which reading can go on. */
  predicate Position(sch: Schema, files: seq<seq<byte>>, h: nat, o: nat)
  {
    FilesOk(sch, files) && h < |files| && Readable(sch, files[h], o)
  }

  /** The records still to come from a position. */
  function Rest(sch: Schema, files: seq<seq<byte>>, h: nat, o: nat): seq<Record>
    requires Position(sch, files, h, o)
  {
    RecordsFrom(sch, files[h], o) + FilesFrom(sch, files, h + 1)
  }

  /** Reading can go on at (h, o), with record number pos of all as the next one. */
  predicate At(sch: Schema, files: seq<seq<byte>>, all: seq<Record>, h: nat, o: nat, pos: int)
  {
    && Position(sch, files, h, o)
    && 0 <= pos <= |all| && Rest(sch, files, h, o) == all[pos..]
  }

  /** Reading one record moves the position past its fields. */
  lemma RestNext(sch: Schema, files: seq<seq<byte>>, h: nat, o: nat)
    requires Position(sch, files, h, o) && !EndsAt(files[h], o)
    ensures FieldsFit(files[h], o, sch.columns)
    ensures var e := FieldsEnd(files[h], o, sch.columns);
      && Position(sch, files, h, e)
      && Cells(sch, files[h], o, 0, sch.columns) != []
      && Rest(sch, files, h, o) == [Cells(sch, files[h], o, 0, sch.columns)] + Rest(sch, files, h, e)
  {}

  /** Where a file seems to end, nothing is lost or repeated by moving on to the next file. */
  lemma RestAcrossFiles(sch: Schema, files: seq<seq<byte>>, h: nat, o: nat)
    requires FilesOk(sch, files) && h + 1 < |files| && EndsAt(files[h], o)
    ensures Position(sch, files, h, o) && Position(sch, files, h + 1, 0) && !EndsAt(files[h + 1], 0)
    ensures Rest(sch, files, h, o) == Rest(sch, files, h + 1, 0)
  {
    assert Rest(sch, files, h, o) == FilesFrom(sch, files, h + 1);
  }

  /** Every file has a record, so a position in front of one or before the last file has something left. */
  lemma NothingLeft(sch: Schema, files: seq<seq<byte>>, h: nat, o: nat)
    requires Position(sch, files, h, o)
    ensures Rest(sch, files, h, o) == [] <==> h == |files| - 1 && EndsAt(files[h], o)
  {
    if h + 1 < |files| {
      assert |RecordsFrom(sch, files[h + 1], 0)| > 0;
    }
  }

  /** A file of whole records ends in a separator. */
  lemma {:induction false} EndsInSeparator(sch: Schema, file: seq<byte>, o: nat)
    requires sch.columns > 0 && WholeRecords(sch, file, o) && o < |file|
    ensures IsSeparator(file[|file| - 1])
    decreases |file| - o
  {
    FieldsEndAfterSeparator(file, o, sch.columns);
    if FieldsEnd(file, o, sch.columns) < |file| {
      EndsInSeparator(sch, file, FieldsEnd(file, o, sch.columns));
    }
  }

  lemma {:induction false} FieldsEndAfterSeparator(file: seq<byte>, o: nat, n: nat)
    requires o <= |file| && FieldsFit(file, o, n) && n > 0
    ensures IsSeparator(file[FieldsEnd(file, o, n) - 1])
    decreases n
  {
    if n > 1 { FieldsEndAfterSeparator(file, SeparatorAt(file, o) + 1, n - 1); }
  }
}
