/**
 The query builder itself: it reads records, hashes their unique columns, keeps the
 set of hashes seen and the committed position in a segment that survives crashes,
 and hands out statements.
 */
module QueryBuilding {
  import opened Bytes
  import opened Words
  import opened Options
  import opened ImportModel
  import opened CsvFile
  import opened HalfCommit
  import opened BufferedReading
  import opened RecordSourcing
  import opened RobinHoodTable
  import opened Xxh3
  import opened Xxh3Stream

  const INSERTED_TABLE_RESERVED_SIZE: nat := 6700000

  /** What lives in shared memory. */
  class Segment {
    const inserted: HashSet<nat>
    var committedHandleIdx: Option<nat>
    var committedOffset: Option<nat>

    constructor (inserted: HashSet<nat>)
      ensures this.inserted == inserted && committedHandleIdx == None && committedOffset == None
    {
      this.inserted, committedHandleIdx, committedOffset := inserted, None, None;
    }
  }

  /** The schema's hash is XXH3 of the concatenated unique columns. */
  ghost predicate HashesWith<A>(sch: Schema, k: Kernel<A>)
  {
    k.Valid() && forall b: seq<byte> :: sch.hash(b) == OneShot(k, Plain, b)
  }

  /** Feeds the unique columns one by one and digests. */
  method HashRecord<A>(sch: Schema, st: State<A>, rec: Record) returns (hash: nat)
    requires st.CacheOk() && HashesWith(sch, st.kernel)
    requires |Flatten(sch.KeyOf(rec))| < TWO_64
    modifies st, st.buffer
    ensures st.CacheOk() && hash == sch.HashOf(rec)
    ensures hash == OneShot(st.kernel, Plain, Flatten(sch.KeyOf(rec)))
  {
    hide OneShot;
    st.Reset();
    var i := 0;
    KeyGrows(sch, rec, 0);
    while i < |rec|
      invariant 0 <= i <= |rec|
      invariant st.Streaming(Plain) && st.total == Flatten(sch.UniqueColumns(rec[..i]))
    {
      KeyGrows(sch, rec, i + 1);
      FeedColumn(sch, st, rec, i);
      i := i + 1;
    }
    assert rec[..i] == rec;
    hash := st.Digest(Plain);
  }

  method FeedColumn<A>(sch: Schema, st: State<A>, rec: Record, i: nat)
    requires i < |rec| && st.Streaming(Plain) && st.total == Flatten(sch.UniqueColumns(rec[..i]))
    requires |Flatten(sch.UniqueColumns(rec[..i + 1]))| < TWO_64
    modifies st, st.buffer
    ensures st.Streaming(Plain) && st.total == Flatten(sch.UniqueColumns(rec[..i + 1]))
  {
    assert rec[..i + 1][..i] == rec[..i];
    FlattenSnoc(sch.UniqueColumns(rec[..i]), rec[i]);
    if i in sch.unique {
      st.Update(rec[i], Plain);
    }
  }

  lemma FlattenSnoc(chunks: seq<seq<byte>>, c: seq<byte>)
    ensures Flatten(chunks + [c]) == Flatten(chunks) + c && Flatten(chunks + []) == Flatten(chunks)
  {
    assert (chunks + [c])[..|chunks|] == chunks;
    assert chunks + [] == chunks;
  }

  /** A prefix of the columns has no longer a key than the record. */
  lemma {:induction false} KeyGrows(sch: Schema, columns: seq<seq<byte>>, i: nat)
    requires i <= |columns|
    ensures |Flatten(sch.UniqueColumns(columns[..i]))| <= |Flatten(sch.UniqueColumns(columns))|
    decreases |columns|
  {
    if i == |columns| {
      assert columns[..i] == columns;
    } else {
      var most := columns[..|columns| - 1];
      KeyGrows(sch, most, i);
      assert most[..i] == columns[..i];
      FlattenSnoc(sch.UniqueColumns(most), columns[|columns| - 1]);
    }
  }

  // ---------------------------------------------------------------- the class

  /** One turn of the gathering loop. */
  lemma GatherTurn(sch: Schema, all: seq<Record>, inserted: set<nat>, pos: nat, size: nat)
    requires pos <= |all|
    ensures var g := Gather(sch, all, inserted, pos, size);
      if size > INSERT_NUM_TUPLES then g == Gathered(inserted, pos, BatchFull)
      else if pos == |all| then g == Gathered(inserted, pos, EndOfInput)
      else if sch.HashOf(all[pos]) in inserted then g == Gathered(inserted + {sch.HashOf(all[pos])}, pos + 1, Duplicate)
      else g == Gather(sch, all, inserted + {sch.HashOf(all[pos])}, pos + 1, size + 1)
  {
    if pos < |all| && sch.HashOf(all[pos]) in inserted {
      assert inserted + {sch.HashOf(all[pos])} == inserted;
    }
  }

  lemma StandsAt(sch: Schema, files: seq<seq<byte>>, all: seq<Record>, h: nat, o: nat, pos: int)
    requires At(sch, files, all, h, o, pos)
    ensures Position(sch, files, h, o) && 0 <= pos <= |all| && Rest(sch, files, h, o) == all[pos..]
  {}

  function OrZero(x: Option<nat>): nat
  {
    if x.Some? then x.value else 0
  }

  class QueryBuilder<A> {
    const sch: Schema
    const segment: Segment
    const source: RecordSource
    const hashState: State<A>
    var tmpRecord: seq<seq<byte>>
    var tmpHandleIdx: nat
    var tmpOffset: nat
    var insertIfNotExists: Option<Record>

    /** All the records of all the files, and how many of them have been read and committed. */
    ghost const all: seq<Record>
    ghost var pos: nat
    ghost var committed: nat

    ghost predicate Wired()
    {
      && sch.Valid() && source.sch == sch
      && FilesOk(sch, source.files) && all == FilesFrom(sch, source.files, 0)
      && HashesWith(sch, hashState.kernel)
      && (forall i | 0 <= i < |all| :: |Flatten(sch.KeyOf(all[i]))| < TWO_64)
      && (forall h | h in source.handles :: h.readBuffer != hashState.buffer)
    }

    ghost predicate SourceOk()
      reads `pos, source.Footprint()
    {
      source.Valid() && pos <= |all| && source.Left() == all[pos..]
    }

    ghost predicate SegmentOk()
      reads `committed, segment
    {
      && segment.committedHandleIdx.Some? && segment.committedOffset.Some?
      && At(sch, source.files, all, segment.committedHandleIdx.value, segment.committedOffset.value, committed)
    }

    ghost predicate PendingOk()
      reads `pos, `tmpRecord, `tmpHandleIdx, `tmpOffset, `insertIfNotExists
    {
      && (tmpRecord != [] ==>
            && insertIfNotExists == None && 0 < pos <= |all| && tmpRecord == all[pos - 1]
            && At(sch, source.files, all, tmpHandleIdx, tmpOffset, pos - 1))
      && (insertIfNotExists.Some? ==> 0 < pos <= |all| && insertIfNotExists.value == all[pos - 1])
    }

    ghost predicate Valid()
      reads this, source.Footprint(), segment, segment.inserted, segment.inserted.entries, hashState
    {
      && Wired() && SourceOk() && SegmentOk() && PendingOk()
      && segment.inserted.Valid() && hashState.CacheOk()
    }

    /** The state the import's rules are about. */
    ghost function Abstract(): (b: Builder)
      reads this, segment, segment.inserted, segment.inserted.entries
    {
      Builder(Hashes(), committed, pos, tmpRecord != [], insertIfNotExists.Some?)
    }

    /**
     Opens the files, finds or creates the persistent state and seeks the committed position.
     A crash may have left either half of the position missing; it then counts as zero.
     */
    constructor (sch: Schema, files: seq<seq<byte>>, bufferSize: nat, segment: Segment,
                 kernel: Kernel<A>, raw: A, ghost committed: nat)
      requires sch.Valid() && FilesOk(sch, files) && HashesWith(sch, kernel) && bufferSize >= 1
      requires forall i | 0 <= i < |FilesFrom(sch, files, 0)| ::
        |Flatten(sch.KeyOf(FilesFrom(sch, files, 0)[i]))| < TWO_64
      requires segment.inserted.Valid()
      requires At(sch, files, FilesFrom(sch, files, 0), OrZero(segment.committedHandleIdx),
        OrZero(segment.committedOffset), committed)
      modifies segment, segment.inserted, segment.inserted.entries
      ensures Valid() && this.sch == sch && this.segment == segment && source.files == files
      ensures all == FilesFrom(sch, files, 0) && hashState.kernel == kernel
      ensures Abstract() == Builder(old(segment.inserted.Contents()), committed, committed, false, false)
      ensures fresh(source.Footprint()) && fresh(hashState) && fresh(hashState.buffer)
      ensures segment.inserted.entries == old(segment.inserted.entries) || fresh(segment.inserted.entries)
    {
      hide At, Position, Rest, Readable, FilesOk, FilesFrom;
      hide OneShot, HashSet.Valid, HashSet.Contents, State.CacheOk;
      hide RecordSource.Valid, RecordSource.Footprint;
      StandsAt(sch, files, FilesFrom(sch, files, 0), OrZero(segment.committedHandleIdx),
        OrZero(segment.committedOffset), committed);
      var st := new State(kernel, [], None, raw);
      segment.inserted.Reserve(INSERTED_TABLE_RESERVED_SIZE);
      var h, o := OrZero(segment.committedHandleIdx), OrZero(segment.committedOffset);
      segment.committedHandleIdx, segment.committedOffset := Some(h), Some(o);
      var src := new RecordSource(sch, files, bufferSize, h, o);
      src.FootprintKinds();
      this.sch, this.segment, source, hashState := sch, segment, src, st;
      tmpRecord, tmpHandleIdx, tmpOffset, insertIfNotExists := [], 0, 0, None;
      all, pos, this.committed := FilesFrom(sch, files, 0), committed, committed;
    }

    /** Remembers where a record that will have to be retried starts. */
    method ReadOne() returns (rec: seq<seq<byte>>, h: nat, o: nat)
      requires Wired() && SourceOk()
      modifies this`pos, source.Footprint()
      ensures Wired() && SourceOk()
      ensures old(pos) == |all| ==> rec == [] && pos == old(pos)
      ensures old(pos) < |all| ==> pos == old(pos) + 1 && rec == all[old(pos)]
      ensures At(sch, source.files, all, h, o, old(pos))
    {
      hide Rest, FilesOk, HashesWith, Readable, FilesFrom;
      h, o := source.handleIdx, source.Offset();
      ghost var left := source.Left();
      rec := source.NextRecord();
      if rec != [] {
        assert left == all[pos..] && left == [rec] + source.Left();
        assert all[pos] == left[0] && all[pos + 1..] == left[1..] == source.Left();
        pos := pos + 1;
      } else {
        assert left == all[pos..];
      }
    }

    lemma PositionsInRange()
      requires Valid()
      ensures pos <= |all| && committed <= |all|
    {}

    lemma CurrentlyAt()
      requires Wired() && SourceOk()
      ensures source.handleIdx < |source.handles|
      ensures At(sch, source.files, all, source.handleIdx, source.Offset(), pos)
    {}

    /** The persistent state and the hash state are not among the objects reading moves. */
    lemma ReadingIsApart()
      requires Wired()
      ensures this !in source.Footprint() && segment !in source.Footprint() && segment.inserted !in source.Footprint()
      ensures forall o | o in source.Footprint() :: allocated(o)
      ensures segment.inserted.entries !in source.Footprint() && hashState !in source.Footprint()
        && hashState.buffer !in source.Footprint()
    {}

    /** What the next commit stores, and the record it stands for. */
    ghost function NextHandleIdx(): nat
      reads this, source
    {
      if tmpRecord == [] then source.handleIdx else tmpHandleIdx
    }

    ghost function NextOffset(): nat
      requires source.handleIdx < |source.handles|
      reads this, source, source.Footprint()
    {
      if tmpRecord == [] then source.Offset() else tmpOffset
    }

    ghost function NextCommitted(): int
      reads this
    {
      if tmpRecord == [] then pos else pos - 1
    }

    lemma NextIsPosition()
      requires Valid() && insertIfNotExists == None
      ensures source.handleIdx < |source.handles| && segment.committedHandleIdx.Some? && segment.committedOffset.Some?
      ensures At(sch, source.files, all, NextHandleIdx(), NextOffset(), NextCommitted())
      ensures At(sch, source.files, all, segment.committedHandleIdx.value, segment.committedOffset.value, committed)
      ensures FilesOk(sch, source.files) && all == FilesFrom(sch, source.files, 0)
    {
      hide Wired, At, HashSet.Valid, State.CacheOk, HashSet.Contents;
      if tmpRecord == [] { CurrentlyAt(); }
      FilesAreRead();
    }

    lemma FilesAreRead()
      requires Wired()
      ensures FilesOk(sch, source.files) && all == FilesFrom(sch, source.files, 0)
    {}

    /** Commits only where no statement is owed for a record already read. */
    method Commit()
      requires Valid()
      modifies segment`committedHandleIdx, segment`committedOffset, this`committed
      ensures Valid()
      ensures BuilderOk(all, old(Abstract())) && Abstract() == ImportModel.Commit(all, old(Abstract()))
    {
      hide Wired, SourceOk, At, HashSet.Valid, State.CacheOk, HashSet.Contents, RecordSource.Footprint;
      hide OffsetServes, StartOf, Readable, WholeRecords, FilesFrom, FilesOk;
      CurrentlyAt();
      PositionsInRange();
      ReadingIsApart();
      if insertIfNotExists.Some? {
        return;
      }
      NextIsPosition();
      StoreHandleIdx(committed);
      StoreOffset();
      committed := if tmpRecord == [] then pos else pos - 1;
    }

    /**
     The first store of a commit.  Killed right after it, a restart stands at one of the
     first m records, or just behind them, if and only if the file has not changed or the
     old offset serves in the new one.
     */
    method StoreHandleIdx(ghost m: nat)
      requires Valid() && insertIfNotExists == None && committed <= m <= |all|
      modifies segment`committedHandleIdx
      ensures source.handleIdx < |source.handles| && NextHandleIdx() < |source.files|
      ensures segment.committedHandleIdx == Some(NextHandleIdx())
        && segment.committedOffset == old(segment.committedOffset)
      ensures segment.committedOffset.Some? && old(segment.committedHandleIdx).Some? && FilesOk(sch, source.files)
      ensures
        (exists p | 0 <= p <= m ::
           At(sch, source.files, all, segment.committedHandleIdx.value, segment.committedOffset.value, p))
        <==> NextHandleIdx() == old(segment.committedHandleIdx.value)
             || OffsetServes(sch, source.files, NextHandleIdx(), segment.committedOffset.value, |all| - m)
    {
      hide Valid, OffsetServes, StartOf, RecordsFrom, FilesFrom, RecordSource.Footprint;
      NextIsPosition();
      HalfCommitServesIff(sch, source.files, all, segment.committedHandleIdx.value, segment.committedOffset.value,
        committed, NextHandleIdx(), m);
      segment.committedHandleIdx := Some(if tmpRecord == [] then source.handleIdx else tmpHandleIdx);
    }

    /** The second store. */
    method StoreOffset()
      requires source.handleIdx < |source.handles|
      modifies segment`committedOffset
      ensures segment.committedOffset == Some(NextOffset())
    {
      segment.committedOffset := Some(if tmpRecord == [] then source.Offset() else tmpOffset);
    }

    /** Adds a record's hash to the persistent set; says whether it was new. */
    method InsertHash(rec: Record) returns (isNew: bool)
      requires Wired() && segment.inserted.Valid() && hashState.CacheOk()
      requires |Flatten(sch.KeyOf(rec))| < TWO_64
      modifies segment.inserted, segment.inserted.entries, hashState, hashState.buffer
      ensures segment.inserted.Valid() && hashState.CacheOk()
      ensures isNew <==> sch.HashOf(rec) !in old(segment.inserted.Contents())
      ensures segment.inserted.Contents() == old(segment.inserted.Contents()) + {sch.HashOf(rec)}
      ensures segment.inserted.entries == old(segment.inserted.entries) || fresh(segment.inserted.entries)
    {
      hide HashSet.Valid, State.CacheOk, HashSet.Contents;
      var hash := HashRecord(sch, hashState, rec);
      var found := segment.inserted.Find(hash);
      isNew := found == segment.inserted.End();
      if isNew {
        var it, inserted := segment.inserted.Emplace(hash);
      }
    }

    /** Valid but for the statements still owed. */
    ghost predicate Live()
      reads `pos, `committed, source.Footprint(), segment, segment.inserted, segment.inserted.entries, hashState
    {
      && Wired() && SourceOk() && SegmentOk()
      && segment.inserted.Valid() && hashState.CacheOk()
    }

    ghost function Hashes(): set<nat>
      reads segment.inserted, segment.inserted.entries
    {
      segment.inserted.Contents()
    }

    /** Reads a record, if there is one, and looks its hash up, adding it if it is new. */
    method ReadAndHash() returns (rec: seq<seq<byte>>, h: nat, o: nat, isNew: bool)
      requires Live() && pos <= |all|
      modifies this`pos, source.Footprint(), segment.inserted, segment.inserted.entries, hashState, hashState.buffer
      ensures Live() && tmpRecord == old(tmpRecord) && insertIfNotExists == old(insertIfNotExists)
      ensures segment.inserted.entries == old(segment.inserted.entries) || fresh(segment.inserted.entries)
      ensures old(pos) == |all| ==> rec == [] && pos == old(pos) && Hashes() == old(Hashes())
      ensures old(pos) < |all| ==>
        && rec != [] && pos == old(pos) + 1 && rec == all[old(pos)] && At(sch, source.files, all, h, o, pos - 1)
        && (isNew <==> sch.HashOf(all[old(pos)]) !in old(Hashes()))
        && Hashes() == old(Hashes()) + {sch.HashOf(all[old(pos)])}
    {
      hide Wired, SourceOk, SegmentOk, At, HashSet.Valid, State.CacheOk, HashSet.Contents, RecordSource.Footprint;
      ReadingIsApart();
      isNew := false;
      rec, h, o := ReadOne();
      if rec != [] {
        KeyFits(pos - 1);
        isNew := InsertHash(rec);
      }
    }

    /** What a turn at position p does to the hashes: a new one is added, anything else stops the gathering. */
    ghost predicate Turned(was: set<nat>, p: nat, stop: Option<Stop>)
      reads this, segment.inserted, segment.inserted.entries
    {
      if stop.None? then
        p < |all| && pos == p + 1 && sch.HashOf(all[p]) !in was && Hashes() == was + {sch.HashOf(all[p])}
      else
        Hashes() == was && (p >= |all| || sch.HashOf(all[p]) in was)
    }

    /** One turn of the gathering loop: the record joins the batch, or the gathering stops. */
    method GatherOne(records: seq<Record>) returns (joined: seq<Record>, stop: Option<Stop>)
      requires Live() && PendingOk() && tmpRecord == [] && insertIfNotExists == None
      requires pos <= |all| && |records| <= INSERT_NUM_TUPLES
      modifies this`pos, this`tmpRecord, this`tmpHandleIdx, this`tmpOffset, source.Footprint()
      modifies segment.inserted, segment.inserted.entries, hashState, hashState.buffer
      ensures Live() && PendingOk() && insertIfNotExists == None && old(pos) <= pos <= |all|
      ensures segment.inserted.entries == old(segment.inserted.entries) || fresh(segment.inserted.entries)
      ensures tmpRecord != [] <==> stop == Some(Duplicate)
      ensures Gather(sch, all, old(Hashes()), old(pos), |records|) ==
        if stop.Some? then Gathered(Hashes(), pos, stop.value) else Gather(sch, all, Hashes(), pos, |joined|)
      ensures if stop.Some? then stop != Some(BatchFull) && joined == records
        && pos == old(pos) + (if stop == Some(Duplicate) then 1 else 0)
              else old(pos) < |all| && pos == old(pos) + 1 && joined == records + [all[old(pos)]]
      ensures Turned(old(Hashes()), old(pos), stop)
    {
      hide Live, At, Hashes, Gather, Schema.HashOf, RecordSource.Footprint;
      GatherTurn(sch, all, Hashes(), pos, |records|);
      joined, stop := records, None;
      var rec, h, o, isNew := ReadAndHash();
      if rec == [] {
        stop := Some(EndOfInput);
      } else if isNew {
        joined := records + [rec];
      } else {
        SetAside(rec, h, o);
        stop := Some(Duplicate);
      }
    }

    /** The gathering that began with hashes ins0 at position p0 has got this far. */
    ghost predicate Gathering(ins0: set<nat>, p0: nat, records: seq<Record>, stop: Option<Stop>)
      reads this, source.Footprint(), segment, segment.inserted, segment.inserted.entries, hashState
    {
      && Live() && PendingOk() && insertIfNotExists == None && stop != Some(BatchFull)
      && (tmpRecord != [] <==> stop == Some(Duplicate))
      && p0 <= pos <= |all| && (stop == Some(Duplicate) ==> p0 < pos)
      && records == all[p0..if stop == Some(Duplicate) then pos - 1 else pos]
      && Gather(sch, all, ins0, p0, 0) ==
         if stop.Some? then Gathered(Hashes(), pos, stop.value) else Gather(sch, all, Hashes(), pos, |records|)
    }

    method GatherTurnOnce(ghost ins0: set<nat>, ghost p0: nat, records: seq<Record>)
      returns (joined: seq<Record>, stop: Option<Stop>)
      requires Gathering(ins0, p0, records, None) && |records| <= INSERT_NUM_TUPLES
      modifies this`pos, this`tmpRecord, this`tmpHandleIdx, this`tmpOffset, source.Footprint()
      modifies segment.inserted, segment.inserted.entries, hashState, hashState.buffer
      ensures Gathering(ins0, p0, joined, stop)
      ensures segment.inserted.entries == old(segment.inserted.entries) || fresh(segment.inserted.entries)
      ensures stop.None? ==> |joined| == |records| + 1
      ensures Turned(old(Hashes()), old(pos), stop)
    {
      hide Live, At, Hashes, Gather, PendingOk, RecordSource.Footprint;
      joined, stop := GatherOne(records);
    }

    /** Reads records while they are new and the batch has room; the first duplicate is set aside. */
    method GatherBatch() returns (records: seq<Record>, end: bool)
      requires Valid() && tmpRecord == [] && insertIfNotExists == None
      modifies this`pos, this`tmpRecord, this`tmpHandleIdx, this`tmpOffset, source.Footprint()
      modifies segment.inserted, segment.inserted.entries, hashState, hashState.buffer
      ensures Valid() && insertIfNotExists == None
      ensures segment.inserted.entries == old(segment.inserted.entries) || fresh(segment.inserted.entries)
      ensures old(pos) <= |all|
      ensures var g := Gather(sch, all, old(Hashes()), old(pos), 0);
        && Hashes() == g.inserted && pos == g.pos
        && (end <==> g.stop == EndOfInput) && (tmpRecord != [] <==> g.stop == Duplicate)
        && (!end ==> records == all[old(pos)..if g.stop == Duplicate then g.pos - 1 else g.pos])
    {
      hide Valid, Gathering, Hashes, RecordSource.Footprint, Gather;
      PositionsInRange();
      records := [];
      var stop: Option<Stop> := None;
      GatheringStarts();
      while |records| <= INSERT_NUM_TUPLES && stop.None?
        invariant Gathering(old(Hashes()), old(pos), records, stop)
        invariant segment.inserted.entries == old(segment.inserted.entries) || fresh(segment.inserted.entries)
        decreases stop.None?, INSERT_NUM_TUPLES + 1 - |records|
      {
        records, stop := GatherTurnOnce(old(Hashes()), old(pos), records);
      }
      GatheringEnds(old(Hashes()), old(pos), records, stop);
      end := stop == Some(EndOfInput);
    }

    lemma GatheringStarts()
      requires Valid() && tmpRecord == [] && insertIfNotExists == None
      ensures Gathering(Hashes(), pos, [], None)
    {
      LiveIsValid();
      PositionsInRange();
      hide Live, PendingOk, Gather;
      assert all[pos..pos] == [];
    }

    lemma GatheringEnds(ins0: set<nat>, p0: nat, records: seq<Record>, stop: Option<Stop>)
      requires Gathering(ins0, p0, records, stop) && p0 <= |all|
      requires |records| > INSERT_NUM_TUPLES || stop.Some?
      ensures Valid() && insertIfNotExists == None
      ensures var g := Gather(sch, all, ins0, p0, 0);
        && Hashes() == g.inserted && pos == g.pos
        && g.stop == (if stop.Some? then stop.value else BatchFull) && (tmpRecord != [] <==> g.stop == Duplicate)
        && records == all[p0..if g.stop == Duplicate then g.pos - 1 else g.pos]
    {
      LiveIsValid();
      hide Live, PendingOk, Gather;
      if stop.None? {
        GatherTurn(sch, all, Hashes(), pos, |records|);
      }
    }

    /** Keeps a duplicate, with the position it starts at, for later statements. */
    method SetAside(rec: Record, h: nat, o: nat)
      requires Live() && insertIfNotExists == None && 0 < pos <= |all| && rec == all[pos - 1]
      requires At(sch, source.files, all, h, o, pos - 1)
      modifies this`tmpRecord, this`tmpHandleIdx, this`tmpOffset
      ensures Live() && tmpRecord == rec && PendingOk()
    {
      hide Wired, SourceOk, SegmentOk, At, HashSet.Valid, State.CacheOk, RecordSource.Footprint;
      ReadingIsApart();
      tmpRecord, tmpHandleIdx, tmpOffset := rec, h, o;
    }

    lemma LiveIsValid()
      ensures Live() && PendingOk() <==> Valid()
    {}

    lemma KeyFits(i: nat)
      requires Wired() && i < |all|
      ensures |Flatten(sch.KeyOf(all[i]))| < TWO_64
    {}

    /** The next statement to execute; NoMore stands for the empty string. */
    method NextQuery() returns (q: Statement)
      requires Valid()
      modifies this`pos, this`tmpRecord, this`tmpHandleIdx, this`tmpOffset, this`insertIfNotExists, source.Footprint()
      modifies segment.inserted, segment.inserted.entries, hashState, hashState.buffer
      ensures Valid()
      ensures segment.inserted.entries == old(segment.inserted.entries) || fresh(segment.inserted.entries)
      ensures BuilderOk(all, old(Abstract())) && (Abstract(), q) == ImportModel.NextQuery(sch, all, old(Abstract()))
    {
      hide Wired, SourceOk, SegmentOk, At, HashSet.Valid, State.CacheOk, Hashes, RecordSource.Footprint;
      PositionsInRange();
      ReadingIsApart();
      if insertIfNotExists.Some? {
        q := InsertIfAbsent(insertIfNotExists.value);
        insertIfNotExists := None;
        return;
      }
      if tmpRecord == [] {
        var records, end := GatherBatch();
        if end {
          return NoMore;
        }
        if records != [] {
          return BulkInsert(records);
        }
      }
      q := Update(tmpRecord);
      insertIfNotExists := Some(tmpRecord);
      tmpRecord := [];
    }
  }
}
