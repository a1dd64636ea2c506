/** The CSV files of one table, read one record after the other. */
module RecordSourcing {
  import opened Bytes
  import opened ImportModel
  import opened CsvFile
  import opened BufferedReading

  /** Readers and buffers that share nothing. */
  ghost predicate Apart(handles: seq<BufferedReader>)
  {
    && (forall i, j | 0 <= i < j < |handles| :: handles[i] != handles[j])
    && (forall i, j | 0 <= i < j < |handles| :: handles[i].readBuffer != handles[j].readBuffer)
  }

  /** The reading half of the query builder: its csv_handles and handle_idx. */
  class RecordSource {
    const sch: Schema
    ghost const files: seq<seq<byte>>
    const handles: seq<BufferedReader>
    var handleIdx: nat

    /** Everything reading changes: this object, the readers and their buffers. */
    ghost function Footprint(): (r: set<object>)
      ensures this in r
      ensures forall i | 0 <= i < |handles| :: handles[i] in r && handles[i].readBuffer in r
    {
      {this} + (set i | 0 <= i < |handles| :: handles[i] as object)
        + (set i | 0 <= i < |handles| :: handles[i].readBuffer as object)
    }

    lemma FootprintKinds()
      ensures forall o | o in Footprint() :: o is RecordSource || o is BufferedReader || o is array<byte>
    {}

    /** Each reader serves its own file; those not reached yet are at their start. */
    ghost predicate Reading(o: nat)
      reads Footprint()
    {
      && |handles| == |files| && handleIdx < |files| && Apart(handles)
      && (forall i | 0 <= i < |handles| :: handles[i].file == files[i])
      && (forall i | 0 <= i < |handles| :: handles[i].Valid())
      && (forall i | handleIdx < i < |handles| :: handles[i].offset == 0)
      && handles[handleIdx].offset == o
    }

    ghost predicate Valid()
      reads Footprint()
    {
      && handleIdx < |handles|
      && Reading(handles[handleIdx].offset)
      && Position(sch, files, handleIdx, handles[handleIdx].offset)
    }

    /** What is still to be read. */
    ghost function Left(): seq<Record>
      requires Valid()
      reads Footprint()
    {
      Rest(sch, files, handleIdx, handles[handleIdx].offset)
    }

    function Offset(): nat
      requires handleIdx < |handles|
      reads this, handles[handleIdx]
    {
      handles[handleIdx].offset
    }

    /** Opens every file and seeks the one at the recovered position. */
    constructor (sch: Schema, files: seq<seq<byte>>, bufferSize: nat, h: nat, o: nat)
      requires bufferSize >= 1 && Position(sch, files, h, o)
      ensures Valid() && this.sch == sch && this.files == files && handleIdx == h && Offset() == o
      ensures fresh(Footprint()) && forall i | 0 <= i < |handles| :: fresh(handles[i].readBuffer)
    {
      hide Apart, Position, BufferedReader.Valid, Readable, WholeRecords, FilesOk;
      OffsetInFile(sch, files, h, o);
      var all := OpenAll(files, bufferSize);
      SeekIn(all, h, o);
      this.sch, this.files, handles, handleIdx := sch, files, all, h;
    }

    /** Looks at the current file's next byte. */
    method PeekCurrent(ghost o: nat) returns (c: int)
      requires Reading(o)
      modifies handles[handleIdx], handles[handleIdx].readBuffer
      ensures Reading(o)
      ensures c == if o < |files[handleIdx]| then SignedChar(files[handleIdx][o]) else EOF
    {
      c := handles[handleIdx].Peek();
    }

    /** Takes the current file's next field. */
    method TakeField(ghost o: nat) returns (value: seq<byte>)
      requires Reading(o) && HasSeparator(files[handleIdx], o)
      modifies handles[handleIdx], handles[handleIdx].readBuffer
      ensures Reading(SeparatorAt(files[handleIdx], o) + 1)
      ensures value == Field(files[handleIdx], o)
    {
      value := handles[handleIdx].GetValue();
    }

    /** The next field, normalised in a float column. */
    method TakeCell(column: nat, ghost o: nat) returns (value: seq<byte>)
      requires Reading(o) && HasSeparator(files[handleIdx], o)
      modifies handles[handleIdx], handles[handleIdx].readBuffer
      ensures Reading(SeparatorAt(files[handleIdx], o) + 1)
      ensures value == Cell(sch, column, Field(files[handleIdx], o))
    {
      value := TakeField(o);
      if column in sch.floats {
        value := sch.normalize(value);
      }
    }

    lemma ReadingHandle(o: nat)
      requires Reading(o)
      ensures handleIdx < |files| == |handles|
    {}

    /** One value per column from the current file, float columns normalised. */
    method ReadCells(ghost start: nat) returns (values: seq<seq<byte>>)
      requires Reading(start) && start <= |files[handleIdx]| && FieldsFit(files[handleIdx], start, sch.columns)
      modifies handles[handleIdx], handles[handleIdx].readBuffer
      ensures values == Cells(sch, files[handleIdx], start, 0, sch.columns)
      ensures Reading(FieldsEnd(files[handleIdx], start, sch.columns))
    {
      hide Reading, HalfRead, Cells, FieldsEnd, FieldsFit, RecordSource.Footprint;
      values := [];
      ReadingHandle(start);
      ghost var file := files[handleIdx];
      ghost var o: nat := start;
      HalfReadStarts(sch, file, start);
      var i: nat := 0;
      while i < sch.columns
        invariant i <= sch.columns && Reading(o)
        invariant HalfRead(sch, file, start, values, i, o)
      {
        HalfReadStep(sch, file, start, values, i, o);
        var v := TakeCell(i, o);
        values := values + [v];
        o := SeparatorAt(file, o) + 1;
        i := i + 1;
      }
      HalfReadEnds(sch, file, start, values, o);
    }

    /** Stands in front of a record, in the next file if the current one is used up. */
    method ToNextRecord() returns (found: bool)
      requires Valid()
      modifies Footprint()
      ensures Valid() && Left() == old(Left()) && (found <==> Left() != [])
      ensures found ==> !EndsAt(files[handleIdx], Offset())
    {
      hide Rest, WholeRecords, Readable, FilesOk;
      ghost var o := Offset();
      NothingLeft(sch, files, handleIdx, o);
      OffsetInFile(sch, files, handleIdx, o);
      var c := PeekCurrent(o);
      if c != EOF {
        return true;
      }
      EofIsAmbiguous(files[handleIdx], o);
      if handleIdx + 1 == |handles| {
        return false;
      }
      ToNextFile();
      found := true;
    }

    method ToNextFile()
      requires Valid() && handleIdx + 1 < |handles| && EndsAt(files[handleIdx], Offset())
      modifies this`handleIdx
      ensures Valid() && Left() == old(Left()) && Left() != []
      ensures !EndsAt(files[handleIdx], Offset())
    {
      hide Rest, WholeRecords, Readable, FilesOk;
      RestAcrossFiles(sch, files, handleIdx, Offset());
      NothingLeft(sch, files, handleIdx + 1, 0);
      OffsetInFile(sch, files, handleIdx, Offset());
      handleIdx := handleIdx + 1;
    }

    /** The next record, or the empty list when all files are used up. */
    method NextRecord() returns (values: seq<seq<byte>>)
      requires Valid()
      modifies Footprint()
      ensures Valid()
      ensures old(Left()) == [] ==> values == [] && Left() == []
      ensures old(Left()) != [] ==> values != [] && old(Left()) == [values] + Left()
    {
      hide Rest, WholeRecords, Readable, FilesOk;
      var found := ToNextRecord();
      if !found {
        return [];
      }
      RestNext(sch, files, handleIdx, Offset());
      values := ReadCells(Offset());
    }
  }

  /** The first i cells of the record at start have been read, up to offset o. */
  ghost predicate HalfRead(sch: Schema, file: seq<byte>, start: nat, values: seq<seq<byte>>, i: nat, o: nat)
  {
    && i <= sch.columns && start <= |file| && o <= |file|
    && FieldsFit(file, start, sch.columns) && FieldsFit(file, o, sch.columns - i)
    && FieldsEnd(file, o, sch.columns - i) == FieldsEnd(file, start, sch.columns)
    && values + Cells(sch, file, o, i, sch.columns - i) == Cells(sch, file, start, 0, sch.columns)
  }

  lemma HalfReadStarts(sch: Schema, file: seq<byte>, start: nat)
    requires start <= |file| && FieldsFit(file, start, sch.columns)
    ensures HalfRead(sch, file, start, [], 0, start)
  {}

  lemma HalfReadStep(sch: Schema, file: seq<byte>, start: nat, values: seq<seq<byte>>, i: nat, o: nat)
    requires HalfRead(sch, file, start, values, i, o) && i < sch.columns
    ensures HasSeparator(file, o)
    ensures HalfRead(sch, file, start, values + [Cell(sch, i, Field(file, o))], i + 1, SeparatorAt(file, o) + 1)
  {
    var next := Cells(sch, file, SeparatorAt(file, o) + 1, i + 1, sch.columns - i - 1);
    AppendMoves(values, Cell(sch, i, Field(file, o)), next);
  }

  lemma HalfReadEnds(sch: Schema, file: seq<byte>, start: nat, values: seq<seq<byte>>, o: nat)
    requires HalfRead(sch, file, start, values, sch.columns, o)
    ensures values == Cells(sch, file, start, 0, sch.columns) && o == FieldsEnd(file, start, sch.columns)
  {}

  lemma AppendMoves<T>(a: seq<T>, x: T, b: seq<T>)
    ensures a + ([x] + b) == (a + [x]) + b
  {}

  lemma OffsetInFile(sch: Schema, files: seq<seq<byte>>, h: nat, o: nat)
    requires Position(sch, files, h, o)
    ensures h < |files| && sch.columns > 0
  {}

  /** One reader per file, all at the start. */
  method OpenAll(files: seq<seq<byte>>, bufferSize: nat) returns (handles: seq<BufferedReader>)
    requires bufferSize >= 1
    ensures |handles| == |files| && Apart(handles)
    ensures forall i | 0 <= i < |handles| :: fresh(handles[i]) && fresh(handles[i].readBuffer)
    ensures forall i | 0 <= i < |handles| :: handles[i].file == files[i] && handles[i].Valid() && handles[i].offset == 0
  {
    handles := [];
    var i := 0;
    while i < |files|
      invariant 0 <= i == |handles| <= |files| && Apart(handles)
      invariant forall j | 0 <= j < i :: fresh(handles[j]) && fresh(handles[j].readBuffer)
      invariant forall j | 0 <= j < i :: handles[j].file == files[j] && handles[j].Valid() && handles[j].offset == 0
    {
      var h := new BufferedReader(files[i], bufferSize);
      handles := handles + [h];
      i := i + 1;
    }
  }

  /** Seeks one reader; the others stay where they are. */
  method SeekIn(handles: seq<BufferedReader>, h: nat, o: nat)
    requires h < |handles| && Apart(handles)
    requires forall i | 0 <= i < |handles| :: handles[i].Valid()
    modifies handles[h]
    ensures forall i | 0 <= i < |handles| :: handles[i].Valid()
    ensures forall i | 0 <= i < |handles| :: handles[i].offset == if i == h then o else old(handles[i].offset)
  {
    handles[h].Seek(o);
  }
}
