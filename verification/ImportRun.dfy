/** The caller's loop over real query builders, and the import it amounts to. */
module ImportRun {
  import opened Bytes
  import opened Words
  import opened Options
  import opened ImportModel
  import opened ImportSafety
  import opened CsvFile
  import opened RecordSourcing
  import opened RobinHoodSlots
  import opened RobinHoodTable
  import opened Xxh3
  import opened Xxh3Stream
  import opened QueryBuilding

  function Weight(b: Builder): nat
  {
    if b.tmp then 2 else if b.insertPending then 1 else 0
  }

  /** What the next query is, and the state once it has been executed and committed. */
  ghost predicate IsRound(sch: Schema, all: seq<Record>, s: System, b: Builder, q: Statement, done: System)
  {
    && BuilderOk(all, s.builder) && BuilderOk(all, b) && BuilderOk(all, done.builder) && s.phase == Idle
    && if q == NoMore then RunToStop(sch, all, s) == s.(builder := b, phase := Stopped)
       else
         && Execute(sch, s.table, q) == Some(done.table) && done.builder == Commit(all, b)
         && done.phase == Idle && Inv(sch, all, done)
         && RunToStop(sch, all, s) == RunToStop(sch, all, done)
         && Later(s.builder, done.builder)
  }

  predicate Later(b: Builder, n: Builder)
  {
    n.pos > b.pos || (n.pos == b.pos && Weight(n) < Weight(b))
  }

  /** One round of the caller's loop, in the terms of the state machine. */
  lemma Round(sch: Schema, all: seq<Record>, s: System) returns (done: System)
    requires BuilderOk(all, s.builder)
    requires sch.Valid() && Inv(sch, all, s) && s.phase == Idle
    ensures var r := NextQuery(sch, all, s.builder); IsRound(sch, all, s, r.0, r.1, done)
  {
    hide Inv, Execute, Gather;
    done := OneRound(sch, all, s);
    RoundMakesProgress(sch, all, s.builder);
  }

  lemma RoundMakesProgress(sch: Schema, all: seq<Record>, b: Builder)
    requires BuilderOk(all, b)
    ensures var (n, q) := NextQuery(sch, all, b);
      q == NoMore || n.pos > b.pos || (n.pos == b.pos && Weight(n) < Weight(b))
  {
    if !b.tmp && !b.insertPending {
      GatherTurn(sch, all, b.inserted, b.pos, 0);
    }
  }

  /** The builder and the table stand for state s, reached in a run that began in state start. */
  ghost predicate StandsFor<A>(qb: QueryBuilder<A>, t: Rows, start: System, s: System)
    reads qb, qb.source.Footprint(), qb.segment, qb.segment.inserted, qb.segment.inserted.entries, qb.hashState
  {
    && qb.Valid() && qb.sch.Valid() && Inv(qb.sch, qb.all, s)
    && s.phase == Idle && s.table == t && s.builder == qb.Abstract()
    && BuilderOk(qb.all, start.builder) && start.phase == Idle
    && RunToStop(qb.sch, qb.all, start) == RunToStop(qb.sch, qb.all, s)
  }

  /** The builder and the table stand for the end of the run that began in state start. */
  ghost predicate EndsLike<A>(qb: QueryBuilder<A>, t: Rows, start: System)
    reads qb, qb.source.Footprint(), qb.segment, qb.segment.inserted, qb.segment.inserted.entries, qb.hashState
  {
    && qb.Valid() && BuilderOk(qb.all, start.builder) && start.phase == Idle
    && var end := RunToStop(qb.sch, qb.all, start);
       end.phase == Stopped && t == end.table && qb.Abstract() == end.builder
  }

  /** One query, executed and committed: one round of the state machine. */
  method OneQuery<A>(qb: QueryBuilder<A>, t: Rows, ghost start: System, ghost s: System)
    returns (u: Rows, more: bool, ghost next: System)
    requires StandsFor(qb, t, start, s)
    modifies qb, qb.source.Footprint(), qb.hashState, qb.hashState.buffer
    modifies qb.segment, qb.segment.inserted, qb.segment.inserted.entries
    ensures if more then StandsFor(qb, u, start, next) && Later(s.builder, next.builder) && next.builder.pos <= |qb.all|
            else EndsLike(qb, u, start)
    ensures qb.segment.inserted.entries == old(qb.segment.inserted.entries) || fresh(qb.segment.inserted.entries)
  {
    Unpack(qb, t, start, s);
    hide StandsFor, EndsLike, IsRound, QueryBuilder.Valid, QueryBuilder.Abstract, RecordSource.Footprint;
    hide Inv, RunToStop, NextQuery, Execute, Commit, Later;
    next := Round(qb.sch, qb.all, s);
    var q := qb.NextQuery();
    more := q != NoMore;
    if more {
      u := FinishQuery(qb, t, q, start, s, next);
    } else {
      u := t;
      Ended(qb, u, start, s, next);
    }
  }

  /** Executes a statement and commits. */
  method FinishQuery<A>(qb: QueryBuilder<A>, t: Rows, q: Statement, ghost start: System,
    ghost s: System, ghost next: System)
    returns (u: Rows)
    requires qb.Valid() && qb.sch.Valid() && IsRound(qb.sch, qb.all, s, qb.Abstract(), q, next)
      && q != NoMore && t == s.table
    requires BuilderOk(qb.all, start.builder) && start.phase == Idle
    requires RunToStop(qb.sch, qb.all, start) == RunToStop(qb.sch, qb.all, s)
    modifies qb.segment`committedHandleIdx, qb.segment`committedOffset, qb`committed
    ensures StandsFor(qb, u, start, next) && Later(s.builder, next.builder) && next.builder.pos <= |qb.all|
    ensures qb.segment.inserted.entries == old(qb.segment.inserted.entries)
  {
    hide StandsFor, QueryBuilder.Valid, QueryBuilder.Abstract, RecordSource.Footprint;
    hide Inv, RunToStop, Execute, Commit, Later;
    ghost var b := qb.Abstract();
    u := Execute(qb.sch, t, q).value;
    qb.Commit();
    Continued(qb, u, start, s, b, q, next);
  }

  lemma Unpack<A>(qb: QueryBuilder<A>, t: Rows, start: System, s: System)
    requires StandsFor(qb, t, start, s)
    ensures qb.Valid() && qb.sch.Valid() && Inv(qb.sch, qb.all, s) && BuilderOk(qb.all, s.builder)
    ensures s.phase == Idle && s.table == t && s.builder == qb.Abstract()
    ensures BuilderOk(qb.all, start.builder) && start.phase == Idle
    ensures RunToStop(qb.sch, qb.all, start) == RunToStop(qb.sch, qb.all, s)
  {}

  lemma Continued<A>(qb: QueryBuilder<A>, u: Rows, start: System, s: System, b: Builder, q: Statement, next: System)
    requires IsRound(qb.sch, qb.all, s, b, q, next) && q != NoMore && qb.sch.Valid()
    requires qb.Valid() && qb.Abstract() == Commit(qb.all, b) && u == next.table
    requires BuilderOk(qb.all, start.builder) && start.phase == Idle
    requires RunToStop(qb.sch, qb.all, start) == RunToStop(qb.sch, qb.all, s)
    ensures StandsFor(qb, u, start, next) && Later(s.builder, next.builder) && next.builder.pos <= |qb.all|
  {
    hide QueryBuilder.Valid, QueryBuilder.Abstract, RunToStop, Inv;
  }

  lemma Ended<A>(qb: QueryBuilder<A>, u: Rows, start: System, s: System, next: System)
    requires qb.Valid() && IsRound(qb.sch, qb.all, s, qb.Abstract(), NoMore, next) && u == s.table
    requires BuilderOk(qb.all, start.builder) && start.phase == Idle
    requires RunToStop(qb.sch, qb.all, start) == RunToStop(qb.sch, qb.all, s)
    ensures EndsLike(qb, u, start)
  {
    hide QueryBuilder.Valid, QueryBuilder.Abstract, RunToStop;
  }

  lemma BasicFacts(sch: Schema, all: seq<Record>, s: System)
    requires Inv(sch, all, s)
    ensures BuilderOk(all, s.builder)
  {}

  /** Ask, execute, commit, until the empty query: exactly a complete run of the state machine. */
  method RunOnce<A>(qb: QueryBuilder<A>, table: Rows, ghost start: System) returns (t: Rows)
    requires StandsFor(qb, table, start, start)
    modifies qb, qb.source.Footprint(), qb.hashState, qb.hashState.buffer
    modifies qb.segment, qb.segment.inserted, qb.segment.inserted.entries
    ensures EndsLike(qb, t, start)
    ensures qb.segment.inserted.entries == old(qb.segment.inserted.entries) || fresh(qb.segment.inserted.entries)
  {
    hide StandsFor, EndsLike, RecordSource.Footprint;
    t := table;
    ghost var s := start;
    var more := true;
    while more
      invariant more ==> StandsFor(qb, t, start, s)
      invariant !more ==> EndsLike(qb, t, start)
      invariant qb.segment.inserted.entries == old(qb.segment.inserted.entries) || fresh(qb.segment.inserted.entries)
      decreases more, |qb.all| - s.builder.pos, Weight(s.builder)
    {
      t, more, s := OneQuery(qb, t, start, s);
    }
  }

  /** A complete run from a restart, another restart, another complete run, as the state machine sees them. */
  lemma FirstRunFacts(sch: Schema, all: seq<Record>, s: System) returns (again: System)
    requires sch.Valid() && BuilderOk(all, s.builder) && Inv(sch, all, s) && s.phase == Idle
    ensures var r := RunToStop(sch, all, s);
      && BuilderOk(all, r.builder)
      && again == ImportModel.Step(sch, all, r, Crash) && Inv(sch, all, again) && again.phase == Idle
      && again.table == r.table && again.builder == Recover(r.builder)
      && RunToStop(sch, all, again).table == Fold(sch, all)
  {
    CompleteRunStops(sch, all, s);
    var r := RunToStop(sch, all, s);
    again := ImportModel.Step(sch, all, r, Crash);
    StepKeepsInvIff(sch, all, r, Crash);
    CompleteRunStops(sch, all, again);
    hide RunToStop;
    assert all[..|all|] == all;
  }

  /** Files and schema an import can start from. */
  ghost predicate Importable<A>(sch: Schema, files: seq<seq<byte>>, kernel: Kernel<A>)
  {
    && sch.Valid() && FilesOk(sch, files) && files != [] && HashesWith(sch, kernel)
    && var all := FilesFrom(sch, files, 0);
       forall i | 0 <= i < |all| :: |Flatten(sch.KeyOf(all[i]))| < TWO_64
  }

  /** Restarts from what the segment holds, and runs to the end. */
  method RestartAndRun<A>(sch: Schema, files: seq<seq<byte>>, bufferSize: nat, kernel: Kernel<A>, raw: A,
                          segment: Segment, table: Rows, ghost start: System) returns (t: Rows)
    requires Importable(sch, files, kernel) && bufferSize >= 1
    requires segment.inserted.Valid()
    requires var all := FilesFrom(sch, files, 0);
      && Inv(sch, all, start) && start.phase == Idle && start.table == table
      && start.builder == Recover(start.builder) && start.builder.inserted == segment.inserted.Contents()
      && At(sch, files, all, OrZero(segment.committedHandleIdx), OrZero(segment.committedOffset),
        start.builder.committed)
    modifies segment, segment.inserted, segment.inserted.entries
    ensures segment.inserted.Valid()
    ensures segment.inserted.entries == old(segment.inserted.entries) || fresh(segment.inserted.entries)
    ensures var all := FilesFrom(sch, files, 0);
      && BuilderOk(all, start.builder)
      && var end := RunToStop(sch, all, start);
      && t == end.table && end.builder.inserted == segment.inserted.Contents()
      && At(sch, files, all, OrZero(segment.committedHandleIdx), OrZero(segment.committedOffset), end.builder.committed)
  {
    hide HashSet.Valid, HashSet.Contents, Inv, RunToStop, At, FilesFrom, HashesWith, RecordSource.Footprint;
    BasicFacts(sch, FilesFrom(sch, files, 0), start);
    var qb := new QueryBuilder(sch, files, bufferSize, segment, kernel, raw, start.builder.committed);
    t := RunOnce(qb, table, start);
  }

  /**
   A first import into an empty table: two complete runs over fresh shared memory, and
   the table holds the last write of every key of every file.
   */
  method ImportAll<A>(sch: Schema, files: seq<seq<byte>>, bufferSize: nat, kernel: Kernel<A>, raw: A,
                      index: (nat, nat) -> nat) returns (table: Rows)
    requires Importable(sch, files, kernel) && bufferSize >= 1 && InRange(index)
    ensures table == Fold(sch, FilesFrom(sch, files, 0))
  {
    ghost var all := FilesFrom(sch, files, 0);
    var inserted := new HashSet<nat>(index);
    var segment := new Segment(inserted);
    assert all[0..] == all;
    hide HashSet.Valid, HashSet.Contents, Inv, RunToStop, FilesFrom, HashesWith, Fold;
    EveryRunKeepsInv(sch, all, []);
    ghost var again := FirstRunFacts(sch, all, INITIAL);
    table := RestartAndRun(sch, files, bufferSize, kernel, raw, segment, map[], INITIAL);
    table := RestartAndRun(sch, files, bufferSize, kernel, raw, segment, table, again);
  }
}
