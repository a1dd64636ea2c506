/**
 Real query builders killed again and again, restart after restart, and the import that
 still completes.  A kill between the two stores of a commit may leave a position that
 is none; the schedule ends there.
 */
module ImportKilled {
  import opened Bytes
  import opened Words
  import opened Options
  import opened ImportModel
  import opened ImportSafety
  import opened CsvFile
  import opened HalfCommit
  import opened RecordSourcing
  import opened RobinHoodSlots
  import RobinHoodTable
  import opened Xxh3
  import opened Xxh3Stream
  import opened QueryBuilding
  import opened ImportRun

  /** Where the last round of a killed process ends; InCommit is between the two stores. */
  datatype Where = Gathering(turns: nat) | Asked | Ran | InCommit

  /** A process that gets through some rounds of asking, executing and committing, and is then killed. */
  datatype Kill = Kill(rounds: nat, where: Where)

  function Rounds(n: nat): seq<Event>
  {
    if n == 0 then [] else Rounds(n - 1) + [Ask, Run, Acknowledge]
  }

  /**
   The gathering loop makes at most one turn for each place in a batch.  Where a commit
   is cut in two, landing is the record that the position it leaves stands for.
   */
  function LastMoves(where: Where, landing: Option<nat>): seq<Event>
  {
    match where
    case Gathering(turns) => [CrashWhileAsking(if turns <= INSERT_NUM_TUPLES then turns else INSERT_NUM_TUPLES + 1)]
    case Asked => [Ask, Crash]
    case Ran => [Ask, Run, Crash]
    case InCommit => [Ask, Run, CrashWhileCommitting(landing)]
  }

  /** What killed processes come to, one after the other, as moves of the state machine. */
  function EventsOf(kills: seq<Kill>, landings: seq<Option<nat>>): seq<Event>
    requires |kills| == |landings|
  {
    if kills == [] then []
    else
      var n := |kills| - 1;
      EventsOf(kills[..n], landings[..n]) + Rounds(kills[n].rounds) + LastMoves(kills[n].where, landings[n])
  }

  lemma OneMore(sch: Schema, all: seq<Record>, events: seq<Event>, e: Event)
    ensures RunEvents(sch, all, INITIAL, events + [e]) == Step(sch, all, RunEvents(sch, all, INITIAL, events), e)
  {
    assert (events + [e])[..|events|] == events;
  }

  lemma ThreeMore(sch: Schema, all: seq<Record>, past: seq<Event>, n: nat)
    ensures RunEvents(sch, all, INITIAL, past + Rounds(n + 1)) ==
      Step(sch, all, Step(sch, all, Step(sch, all, RunEvents(sch, all, INITIAL, past + Rounds(n)), Ask), Run),
        Acknowledge)
  {
    hide RunEvents, Step;
    var events := past + Rounds(n);
    OneMore(sch, all, events, Ask);
    OneMore(sch, all, events + [Ask], Run);
    OneMore(sch, all, events + [Ask] + [Run], Acknowledge);
    assert past + Rounds(n + 1) == events + [Ask] + [Run] + [Acknowledge];
  }

  lemma TwoMore(sch: Schema, all: seq<Record>, past: seq<Event>)
    ensures RunEvents(sch, all, INITIAL, past + [Ask, Run]) ==
      Step(sch, all, Step(sch, all, RunEvents(sch, all, INITIAL, past), Ask), Run)
  {
    hide Step, RunEvents;
    OneMore(sch, all, past, Ask);
    OneMore(sch, all, past + [Ask], Run);
    assert past + [Ask] + [Run] == past + [Ask, Run];
  }

  lemma LastMore(sch: Schema, all: seq<Record>, past: seq<Event>, where: Where, landing: Option<nat>)
    ensures var s := RunEvents(sch, all, INITIAL, past);
      RunEvents(sch, all, INITIAL, past + LastMoves(where, landing)) ==
      match where
      case Gathering(_) => Step(sch, all, s, LastMoves(where, landing)[0])
      case Asked => Step(sch, all, Step(sch, all, s, Ask), Crash)
      case Ran => Step(sch, all, Step(sch, all, Step(sch, all, s, Ask), Run), Crash)
      case InCommit => Step(sch, all, Step(sch, all, Step(sch, all, s, Ask), Run), CrashWhileCommitting(landing))
  {
    hide Step, RunEvents;
    var moves := LastMoves(where, landing);
    match where
    case Gathering(_) => OneMore(sch, all, past, moves[0]);
    case Asked =>
      OneMore(sch, all, past, Ask);
      OneMore(sch, all, past + [Ask], Crash);
      assert past + [Ask] + [Crash] == past + moves;
    case _ =>
      TwoMore(sch, all, past);
      OneMore(sch, all, past + [Ask, Run], moves[2]);
      assert past + [Ask, Run] + [moves[2]] == past + moves;
  }

  // ---------------------------------------------------------------- one process

  /** A live builder and the table stand for state s. */
  ghost predicate Sits<A>(qb: QueryBuilder<A>, t: Rows, s: System)
    reads qb, qb.source.Footprint(), qb.segment, qb.segment.inserted, qb.segment.inserted.entries, qb.hashState
  {
    && qb.Valid() && qb.sch.Valid() && Inv(qb.sch, qb.all, s)
    && s.table == t && s.builder == qb.Abstract()
  }

  /** What a process that is gone has left in shared memory and in the table stands for state s. */
  ghost predicate Left(sch: Schema, files: seq<seq<byte>>, segment: Segment, t: Rows, s: System)
    reads segment, segment.inserted, segment.inserted.entries
  {
    && segment.inserted.Valid()
    && FilesOk(sch, files)
    && var all := FilesFrom(sch, files, 0);
    && Inv(sch, all, s) && s.phase == Idle && s.table == t
    && s.builder == Recover(s.builder) && s.builder.inserted == segment.inserted.Contents()
    && At(sch, files, all, OrZero(segment.committedHandleIdx), OrZero(segment.committedOffset), s.builder.committed)
  }

  method AskOnce<A>(qb: QueryBuilder<A>, t: Rows, ghost s: System) returns (q: Statement)
    requires Sits(qb, t, s) && s.phase == Idle
    modifies qb, qb.source.Footprint(), qb.hashState, qb.hashState.buffer
    modifies qb.segment, qb.segment.inserted, qb.segment.inserted.entries
    ensures BuilderOk(qb.all, s.builder)
    ensures var asked := Step(qb.sch, qb.all, s, Ask);
      Sits(qb, t, asked) && asked.phase == if q == NoMore then Stopped else Issued(q)
    ensures qb.segment.inserted.entries == old(qb.segment.inserted.entries) || fresh(qb.segment.inserted.entries)
  {
    hide QueryBuilder.Valid, QueryBuilder.Abstract, RecordSource.Footprint, Inv, ImportModel.NextQuery;
    AskKeepsInv(qb.sch, qb.all, s);
    BasicFacts(qb.sch, qb.all, s);
    q := qb.NextQuery();
  }

  method RunIt<A>(qb: QueryBuilder<A>, t: Rows, q: Statement, ghost s: System) returns (u: Rows)
    requires Sits(qb, t, s) && s.phase == Issued(q)
    ensures BuilderOk(qb.all, s.builder)
    ensures var ran := Step(qb.sch, qb.all, s, Run); Sits(qb, u, ran) && ran.phase == Executed
  {
    hide QueryBuilder.Valid, QueryBuilder.Abstract, RecordSource.Footprint, Inv, Execute;
    BasicFacts(qb.sch, qb.all, s);
    RunKeepsInv(qb.sch, qb.all, s);
    RanPhase(qb.sch, qb.all, s);
    u := Execute(qb.sch, t, q).value;
  }

  method CommitIt<A>(qb: QueryBuilder<A>, t: Rows, ghost s: System)
    requires Sits(qb, t, s) && s.phase == Executed
    modifies qb.segment`committedHandleIdx, qb.segment`committedOffset, qb`committed
    ensures BuilderOk(qb.all, s.builder)
    ensures var done := Step(qb.sch, qb.all, s, Acknowledge); Sits(qb, t, done) && done.phase == Idle
    ensures qb.segment.inserted.entries == old(qb.segment.inserted.entries)
  {
    hide QueryBuilder.Valid, QueryBuilder.Abstract, RecordSource.Footprint, Inv, ImportModel.Commit;
    BasicFacts(qb.sch, qb.all, s);
    StepKeepsInvIff(qb.sch, qb.all, s, Acknowledge);
    qb.Commit();
  }

  /** One round, or none when there is nothing more to ask for. */
  method WholeRound<A>(qb: QueryBuilder<A>, t: Rows, ghost s: System) returns (u: Rows, more: bool)
    requires Sits(qb, t, s) && s.phase == Idle
    modifies qb, qb.source.Footprint(), qb.hashState, qb.hashState.buffer
    modifies qb.segment, qb.segment.inserted, qb.segment.inserted.entries
    ensures BuilderOk(qb.all, s.builder)
    ensures var done := Step(qb.sch, qb.all, Step(qb.sch, qb.all, Step(qb.sch, qb.all, s, Ask), Run), Acknowledge);
      Sits(qb, u, done) && done.phase == if more then Idle else Stopped
    ensures qb.segment.inserted.entries == old(qb.segment.inserted.entries) || fresh(qb.segment.inserted.entries)
  {
    hide Sits, RecordSource.Footprint, NextQuery, Execute, Commit;
    var q := AskOnce(qb, t, s);
    ghost var asked := Step(qb.sch, qb.all, s, Ask);
    more := q != NoMore;
    u := t;
    if more {
      u := RunIt(qb, t, q, asked);
      CommitIt(qb, u, Step(qb.sch, qb.all, asked, Run));
    }
  }

  /** A turn of the gathering loop is a step of the hashes it has inserted so far. */
  lemma OneTurn<A>(qb: QueryBuilder<A>, was: set<nat>, p: nat, stop: Option<Stop>, k: nat)
    requires qb.Turned(was, p, stop) && k > 0
    ensures InsertedAfter(qb.sch, qb.all, was, p, k) ==
      if stop.None? then InsertedAfter(qb.sch, qb.all, qb.Hashes(), qb.pos, k - 1) else qb.Hashes()
  {
    hide QueryBuilder.Hashes, Schema.HashOf;
  }

  lemma NoTurn(sch: Schema, all: seq<Record>, inserted: set<nat>, pos: nat)
    ensures InsertedAfter(sch, all, inserted, pos, 0) == inserted
  {}

  /** Starts gathering and makes no more than so many turns of the loop. */
  method GatherInPart<A>(qb: QueryBuilder<A>, turns: nat)
    requires qb.Valid() && qb.tmpRecord == [] && qb.insertIfNotExists == None && turns <= INSERT_NUM_TUPLES + 1
    modifies qb`pos, qb`tmpRecord, qb`tmpHandleIdx, qb`tmpOffset, qb.source.Footprint()
    modifies qb.segment.inserted, qb.segment.inserted.entries, qb.hashState, qb.hashState.buffer
    ensures qb.Valid() && qb.committed == old(qb.committed)
    ensures qb.Hashes() == InsertedAfter(qb.sch, qb.all, old(qb.Hashes()), old(qb.pos), turns)
    ensures qb.segment.inserted.entries == old(qb.segment.inserted.entries) || fresh(qb.segment.inserted.entries)
  {
    hide QueryBuilder.Valid, QueryBuilder.Hashes, QueryBuilder.Gathering, QueryBuilder.Turned, InsertedAfter;
    hide Gather, RecordSource.Footprint;
    var records: seq<Record>, stop: Option<Stop>, i := [], None, 0;
    qb.GatheringStarts();
    ghost var was, p0, target := qb.Hashes(), qb.pos, InsertedAfter(qb.sch, qb.all, qb.Hashes(), qb.pos, turns);
    while i < turns && stop.None?
      invariant qb.committed == old(qb.committed)
      invariant i <= turns && qb.Gathering(was, p0, records, stop) && (stop.None? ==> |records| == i)
      invariant target == if stop.None? then InsertedAfter(qb.sch, qb.all, qb.Hashes(), qb.pos, turns - i)
        else qb.Hashes()
      invariant qb.segment.inserted.entries == old(qb.segment.inserted.entries) || fresh(qb.segment.inserted.entries)
    {
      ghost var before, p := qb.Hashes(), qb.pos;
      ReadingLeavesIt(qb, was, p0, records, stop);
      records, stop := qb.GatherTurnOnce(was, p0, records);
      OneTurn(qb, before, p, stop, turns - i);
      i := i + 1;
    }
    NoTurn(qb.sch, qb.all, qb.Hashes(), qb.pos);
    StillValid(qb, was, p0, records, stop);
  }

  lemma ReadingLeavesIt<A>(qb: QueryBuilder<A>, was: set<nat>, p0: nat, records: seq<Record>, stop: Option<Stop>)
    requires qb.Gathering(was, p0, records, stop)
    ensures qb !in qb.source.Footprint()
  {
    hide RecordSource.Footprint, QueryBuilder.Wired, Gather;
    qb.ReadingIsApart();
  }

  lemma StillValid<A>(qb: QueryBuilder<A>, was: set<nat>, p0: nat, records: seq<Record>, stop: Option<Stop>)
    requires qb.Gathering(was, p0, records, stop)
    ensures qb.Valid()
  {
    hide QueryBuilder.Live, QueryBuilder.PendingOk, Gather;
    qb.LiveIsValid();
  }

  // ---------------------------------------------------------------- what a killed process leaves

  lemma Stored<A>(qb: QueryBuilder<A>)
    requires qb.Valid()
    ensures qb.segment.committedHandleIdx.Some? && qb.segment.committedOffset.Some? && qb.segment.inserted.Valid()
    ensures FilesOk(qb.sch, qb.source.files) && qb.all == FilesFrom(qb.sch, qb.source.files, 0)
    ensures At(qb.sch, qb.source.files, qb.all, OrZero(qb.segment.committedHandleIdx),
      OrZero(qb.segment.committedOffset), qb.committed)
  {}

  /** The builder is gone; what it had stored is what a restart recovers. */
  lemma Gone<A>(qb: QueryBuilder<A>, t: Rows, s: System, e: Event)
    requires qb.Valid() && qb.sch.Valid() && Inv(qb.sch, qb.all, s) && s.table == t && Lands(s, e)
    requires BuilderOk(qb.all, s.builder) && Step(qb.sch, qb.all, s, e).phase == Idle
    requires Step(qb.sch, qb.all, s, e) ==
      s.(builder := Builder(qb.Hashes(), qb.committed, qb.committed, false, false), phase := Idle)
    ensures Left(qb.sch, qb.source.files, qb.segment, t, Step(qb.sch, qb.all, s, e))
  {
    hide QueryBuilder.Valid, Inv, At, FilesOk, FilesFrom, RobinHoodTable.HashSet.Valid, Step, Lands;
    Stored(qb);
    StepKeepsInvIff(qb.sch, qb.all, s, e);
  }

  /** Killed between two moves. */
  lemma GoneAfter<A>(qb: QueryBuilder<A>, t: Rows, s: System)
    requires Sits(qb, t, s)
    ensures BuilderOk(qb.all, s.builder)
    ensures Left(qb.sch, qb.source.files, qb.segment, t, Step(qb.sch, qb.all, s, Crash))
  {
    hide QueryBuilder.Valid, Inv, Left, QueryBuilder.Hashes;
    BasicFacts(qb.sch, qb.all, s);
    NeverDerailed(qb.sch, qb.all, s);
    Gone(qb, t, s, Crash);
  }

  lemma NeverDerailed(sch: Schema, all: seq<Record>, s: System)
    requires Inv(sch, all, s)
    ensures s.phase != Derailed
  {}

  /** Killed while it gathers records. */
  method KilledGathering<A>(qb: QueryBuilder<A>, t: Rows, turns: nat, ghost s: System)
    requires Sits(qb, t, s) && s.phase == Idle && turns <= INSERT_NUM_TUPLES + 1
    modifies qb`pos, qb`tmpRecord, qb`tmpHandleIdx, qb`tmpOffset, qb.source.Footprint()
    modifies qb.segment.inserted, qb.segment.inserted.entries, qb.hashState, qb.hashState.buffer
    ensures BuilderOk(qb.all, s.builder)
    ensures Left(qb.sch, qb.source.files, qb.segment, t, Step(qb.sch, qb.all, s, CrashWhileAsking(turns)))
    ensures qb.segment.inserted.entries == old(qb.segment.inserted.entries) || fresh(qb.segment.inserted.entries)
  {
    hide QueryBuilder.Valid, Inv, Left, QueryBuilder.Hashes, RecordSource.Footprint, InsertedAfter;
    BasicFacts(qb.sch, qb.all, s);
    if qb.tmpRecord == [] && qb.insertIfNotExists == None {
      GatherInPart(qb, turns);
    }
    Gone(qb, t, s, CrashWhileAsking(turns));
  }

  // ---------------------------------------------------------------- killed in a commit

  /** In state s a commit was cut in two, and the position it has left is not one to go on from. */
  ghost predicate Stuck(sch: Schema, files: seq<seq<byte>>, segment: Segment, t: Rows, s: System)
    reads segment
  {
    && FilesOk(sch, files)
    && var all := FilesFrom(sch, files, 0);
    var h, o := OrZero(segment.committedHandleIdx), OrZero(segment.committedOffset);
    && Inv(sch, all, s) && Storing(s) && s.table == t && h < |files|
    && !OffsetServes(sch, files, h, o, |all| - s.applied)
    && forall p | 0 <= p <= s.applied :: !At(sch, files, all, h, o, p)
  }

  /** The restart will stand at record p. */
  lemma Landed(sch: Schema, files: seq<seq<byte>>, segment: Segment, t: Rows, s: System, p: nat)
    requires sch.Valid() && segment.inserted.Valid() && FilesOk(sch, files)
    requires var all := FilesFrom(sch, files, 0);
      && Inv(sch, all, s) && Storing(s) && s.table == t && p <= s.applied
      && s.builder.inserted == segment.inserted.Contents()
      && At(sch, files, all, OrZero(segment.committedHandleIdx), OrZero(segment.committedOffset), p)
    ensures var all := FilesFrom(sch, files, 0);
      && BuilderOk(all, s.builder)
      && Left(sch, files, segment, t, ImportModel.Step(sch, all, s, CrashWhileCommitting(Some(p))))
  {
    var all := FilesFrom(sch, files, 0);
    hide RobinHoodTable.HashSet.Valid, RobinHoodTable.HashSet.Contents, FilesFrom, FilesOk, At;
    StepKeepsInvIff(sch, all, s, CrashWhileCommitting(Some(p)));
  }

  /** Killed after the first store: whatever record the pair stands for, a restart goes on there. */
  method KilledAfterFirstStore<A>(qb: QueryBuilder<A>, t: Rows, ghost s: System)
    requires Sits(qb, t, s) && Storing(s)
    modifies qb.segment`committedHandleIdx
    ensures BuilderOk(qb.all, s.builder)
    ensures (forall p | 0 <= p <= s.applied :: !At(qb.sch, qb.source.files, qb.all,
        OrZero(qb.segment.committedHandleIdx), OrZero(qb.segment.committedOffset), p)) ==>
      Stuck(qb.sch, qb.source.files, qb.segment, t, s)
    ensures forall p: nat | p <= s.applied && At(qb.sch, qb.source.files, qb.all,
        OrZero(qb.segment.committedHandleIdx), OrZero(qb.segment.committedOffset), p) ::
      Left(qb.sch, qb.source.files, qb.segment, t, Step(qb.sch, qb.all, s, CrashWhileCommitting(Some(p))))
  {
    hide QueryBuilder.Valid, Inv, Left, At, OffsetServes, RobinHoodTable.HashSet.Valid, RobinHoodTable.HashSet.Contents;
    hide FilesFrom, FilesOk, RecordSource.Footprint, Step;
    InvBounds(qb.sch, qb.all, s);
    Stored(qb);
    qb.StoreHandleIdx(s.applied);
    forall p: nat | p <= s.applied && At(qb.sch, qb.source.files, qb.all,
        OrZero(qb.segment.committedHandleIdx), OrZero(qb.segment.committedOffset), p)
      ensures Left(qb.sch, qb.source.files, qb.segment, t, Step(qb.sch, qb.all, s, CrashWhileCommitting(Some(p))))
    {
      Landed(qb.sch, qb.source.files, qb.segment, t, s, p);
    }
  }

  lemma InvBounds(sch: Schema, all: seq<Record>, s: System)
    requires Inv(sch, all, s)
    ensures BuilderOk(all, s.builder) && s.builder.committed <= s.applied <= |all|
  {}

  /** A commit that stores nothing cannot be cut in two. */
  lemma NothingStored<A>(qb: QueryBuilder<A>, t: Rows, s: System)
    requires Sits(qb, t, s) && !Storing(s)
    ensures BuilderOk(qb.all, s.builder)
    ensures Left(qb.sch, qb.source.files, qb.segment, t, Step(qb.sch, qb.all, s, CrashWhileCommitting(None)))
  {
    hide QueryBuilder.Valid, Inv, Left, QueryBuilder.Hashes;
    NeverDerailed(qb.sch, qb.all, s);
    GoneAfter(qb, t, s);
  }

  lemma StoppedStays(sch: Schema, all: seq<Record>, s: System)
    requires BuilderOk(all, s.builder) && s.phase == Stopped
    ensures Step(sch, all, Step(sch, all, s, Ask), Run) == s
  {}

  // ---------------------------------------------------------------- whole processes

  /** A live builder stands for the state after past and n more rounds, idle while there is more to ask for. */
  ghost predicate Running<A>(qb: QueryBuilder<A>, t: Rows, past: seq<Event>, n: nat, more: bool)
    reads qb, qb.source.Footprint(), qb.segment, qb.segment.inserted, qb.segment.inserted.entries, qb.hashState
  {
    var s := RunEvents(qb.sch, qb.all, INITIAL, past + Rounds(n));
    Sits(qb, t, s) && s.phase == if more then Idle else Stopped
  }

  /** One more round, which changes nothing once there is nothing more to ask for. */
  method NextRound<A>(qb: QueryBuilder<A>, t: Rows, more: bool, ghost past: seq<Event>, ghost n: nat)
    returns (u: Rows, still: bool)
    requires Running(qb, t, past, n, more)
    modifies qb, qb.source.Footprint(), qb.hashState, qb.hashState.buffer
    modifies qb.segment, qb.segment.inserted, qb.segment.inserted.entries
    ensures Running(qb, u, past, n + 1, still)
    ensures qb.segment.inserted.entries == old(qb.segment.inserted.entries) || fresh(qb.segment.inserted.entries)
  {
    hide Sits, RecordSource.Footprint, NextQuery, Execute, Commit, RunEvents, Rounds;
    ghost var s := RunEvents(qb.sch, qb.all, INITIAL, past + Rounds(n));
    ThreeMore(qb.sch, qb.all, past, n);
    u, still := t, more;
    if more {
      u, still := WholeRound(qb, t, s);
    }
  }

  /** The last round of a killed process, as far as it gets; none once there is nothing more to ask for. */
  method LastRound<A>(qb: QueryBuilder<A>, t: Rows, more: bool, where: Where, ghost past: seq<Event>, ghost n: nat)
    returns (u: Rows)
    requires Running(qb, t, past, n, more) && !where.InCommit?
    modifies qb, qb.source.Footprint(), qb.hashState, qb.hashState.buffer
    modifies qb.segment, qb.segment.inserted, qb.segment.inserted.entries
    ensures Left(qb.sch, qb.source.files, qb.segment, u,
      RunEvents(qb.sch, qb.all, INITIAL, past + Rounds(n) + LastMoves(where, None)))
    ensures qb.segment.inserted.entries == old(qb.segment.inserted.entries) || fresh(qb.segment.inserted.entries)
  {
    hide Sits, Left, RecordSource.Footprint, NextQuery, Execute, RunEvents, Rounds;
    u := t;
    ghost var s := RunEvents(qb.sch, qb.all, INITIAL, past + Rounds(n));
    LastMore(qb.sch, qb.all, past + Rounds(n), where, None);
    if !more {
      GoneAfter(qb, t, s);
      return;
    }
    match where
    case Gathering(turns) =>
      KilledGathering(qb, t, if turns <= INSERT_NUM_TUPLES then turns else INSERT_NUM_TUPLES + 1, s);
    case Asked =>
      var q := AskOnce(qb, t, s);
      GoneAfter(qb, t, Step(qb.sch, qb.all, s, Ask));
    case Ran =>
      u := AskAndRun(qb, t, s);
      GoneAfter(qb, u, Step(qb.sch, qb.all, Step(qb.sch, qb.all, s, Ask), Run));
  }

  method AskAndRun<A>(qb: QueryBuilder<A>, t: Rows, ghost s: System) returns (u: Rows)
    requires Sits(qb, t, s) && s.phase == Idle
    modifies qb, qb.source.Footprint(), qb.hashState, qb.hashState.buffer
    modifies qb.segment, qb.segment.inserted, qb.segment.inserted.entries
    ensures BuilderOk(qb.all, s.builder)
    ensures Sits(qb, u, Step(qb.sch, qb.all, Step(qb.sch, qb.all, s, Ask), Run))
    ensures qb.segment.inserted.entries == old(qb.segment.inserted.entries) || fresh(qb.segment.inserted.entries)
  {
    hide Sits, RecordSource.Footprint, NextQuery, Execute;
    var q := AskOnce(qb, t, s);
    u := t;
    if q != NoMore {
      u := RunIt(qb, t, q, Step(qb.sch, qb.all, s, Ask));
    }
  }

  /**
   A last round cut off in its commit.  The record at which a restart will stand, if
   there is one, is found by looking at the files, which the builder itself does not do.
   */
  method CommitInPart<A>(qb: QueryBuilder<A>, files: seq<seq<byte>>, t: Rows, more: bool, past: seq<Event>, n: nat)
    returns (u: Rows, stuck: bool, landing: Option<nat>)
    requires Running(qb, t, past, n, more) && qb.source.files == files
    requires FilesOk(qb.sch, files) && qb.all == FilesFrom(qb.sch, files, 0)
    modifies qb, qb.source.Footprint(), qb.hashState, qb.hashState.buffer
    modifies qb.segment, qb.segment.inserted, qb.segment.inserted.entries
    ensures !stuck ==> Left(qb.sch, files, qb.segment, u,
      RunEvents(qb.sch, qb.all, INITIAL, past + Rounds(n) + LastMoves(InCommit, landing)))
    ensures stuck ==> Stuck(qb.sch, files, qb.segment, u,
      RunEvents(qb.sch, qb.all, INITIAL, past + Rounds(n) + [Ask, Run]))
    ensures qb.segment.inserted.entries == old(qb.segment.inserted.entries) || fresh(qb.segment.inserted.entries)
  {
    hide Sits, Left, Stuck, RecordSource.Footprint, NextQuery, Execute, RunEvents, Rounds, At, FilesFrom, FilesOk, Step;
    u, stuck, landing := t, false, None;
    var all := FilesFrom(qb.sch, files, 0);
    var s := RunEvents(qb.sch, all, INITIAL, past + Rounds(n));
    TwoMore(qb.sch, all, past + Rounds(n));
    if more {
      u := AskAndRun(qb, t, s);
    } else {
      StoppedStays(qb.sch, all, s);
    }
    var ran := RunEvents(qb.sch, all, INITIAL, past + Rounds(n) + [Ask, Run]);
    if Storing(ran) {
      KilledAfterFirstStore(qb, u, ran);
      var h, o := OrZero(qb.segment.committedHandleIdx), OrZero(qb.segment.committedOffset);
      stuck := forall p: nat | p <= ran.applied :: !At(qb.sch, files, all, h, o, p);
      if !stuck {
        var p: nat :| p <= ran.applied && At(qb.sch, files, all, h, o, p);
        landing := Some(p);
      }
    } else {
      NothingStored(qb, u, ran);
    }
    LastMore(qb.sch, qb.all, past + Rounds(n), InCommit, landing);
  }

  /** A process that starts from what the one before it left, and is killed. */
  method KilledProcess<A>(sch: Schema, files: seq<seq<byte>>, bufferSize: nat, kernel: Kernel<A>, raw: A,
                          segment: Segment, table: Rows, kill: Kill, past: seq<Event>)
    returns (t: Rows, stuck: bool, landing: Option<nat>)
    requires Importable(sch, files, kernel) && bufferSize >= 1
    requires Left(sch, files, segment, table, RunEvents(sch, FilesFrom(sch, files, 0), INITIAL, past))
    modifies segment, segment.inserted, segment.inserted.entries
    ensures var rounds := past + Rounds(kill.rounds);
      if stuck then
        && kill.where.InCommit?
        && Stuck(sch, files, segment, t, RunEvents(sch, FilesFrom(sch, files, 0), INITIAL, rounds + [Ask, Run]))
      else
        Left(sch, files, segment, t,
          RunEvents(sch, FilesFrom(sch, files, 0), INITIAL, rounds + LastMoves(kill.where, landing)))
    ensures segment.inserted.entries == old(segment.inserted.entries) || fresh(segment.inserted.entries)
  {
    hide Running, Left, Stuck, RunEvents, RecordSource.Footprint;
    var qb := StartProcess(sch, files, bufferSize, kernel, raw, segment, table, past);
    t := table;
    var more, i := true, 0;
    while i < kill.rounds
      invariant i <= kill.rounds && Running(qb, t, past, i, more)
      invariant segment.inserted.entries == old(segment.inserted.entries) || fresh(segment.inserted.entries)
    {
      t, more := NextRound(qb, t, more, past, i);
      i := i + 1;
    }
    stuck, landing := false, None;
    if kill.where.InCommit? {
      t, stuck, landing := CommitInPart(qb, files, t, more, past, kill.rounds);
    } else {
      t := LastRound(qb, t, more, kill.where, past, kill.rounds);
    }
  }

  method StartProcess<A>(sch: Schema, files: seq<seq<byte>>, bufferSize: nat, kernel: Kernel<A>, raw: A,
                         segment: Segment, table: Rows, ghost past: seq<Event>) returns (qb: QueryBuilder<A>)
    requires Importable(sch, files, kernel) && bufferSize >= 1
    requires Left(sch, files, segment, table, RunEvents(sch, FilesFrom(sch, files, 0), INITIAL, past))
    modifies segment, segment.inserted, segment.inserted.entries
    ensures Running(qb, table, past, 0, true)
    ensures qb.sch == sch && qb.segment == segment && qb.source.files == files && qb.all == FilesFrom(sch, files, 0)
    ensures fresh(qb) && fresh(qb.source.Footprint()) && fresh(qb.hashState) && fresh(qb.hashState.buffer)
    ensures segment.inserted.entries == old(segment.inserted.entries) || fresh(segment.inserted.entries)
  {
    hide RobinHoodTable.HashSet.Valid, RobinHoodTable.HashSet.Contents, Inv, RunEvents, At, FilesFrom, HashesWith;
    hide RecordSource.Footprint, QueryBuilder.Valid;
    ghost var s := RunEvents(sch, FilesFrom(sch, files, 0), INITIAL, past);
    qb := new QueryBuilder(sch, files, bufferSize, segment, kernel, raw, s.builder.committed);
    assert past + Rounds(0) == past;
  }

  // ---------------------------------------------------------------- the whole import

  /**
   Processes killed one after the other over new shared memory and an empty table, all of
   them, or up to the first that is killed in a commit and leaves no position to go on from.
   */
  method RunWithKills<A>(sch: Schema, files: seq<seq<byte>>, bufferSize: nat, kernel: Kernel<A>, raw: A,
                         index: (nat, nat) -> nat, kills: seq<Kill>)
    returns (segment: Segment, table: Rows, landings: seq<Option<nat>>)
    requires Importable(sch, files, kernel) && bufferSize >= 1 && InRange(index)
    ensures |landings| <= |kills|
    ensures Outcome(sch, files, segment, table, kills, landings)
    ensures fresh(segment) && fresh(segment.inserted) && fresh(segment.inserted.entries)
  {
    hide Outcome, SoFar, HashesWith, FilesFrom, RobinHoodTable.HashSet.Valid, RobinHoodTable.HashSet.Contents;
    var inserted := new RobinHoodTable.HashSet<nat>(index);
    segment := new Segment(inserted);
    NothingDone(sch, files, segment, kills);
    var stuck;
    table, landings, stuck := map[], [], false;
    while |landings| < |kills| && !stuck
      invariant |landings| <= |kills| && (stuck ==> |landings| < |kills|)
      invariant SoFar(sch, files, segment, table, kills, landings, stuck)
      invariant fresh(segment) && fresh(segment.inserted) && fresh(segment.inserted.entries)
      decreases !stuck, |kills| - |landings|
    {
      table, stuck, landings := NextKill(sch, files, bufferSize, kernel, raw, segment, table, kills, landings);
    }
    InTheEnd(sch, files, segment, table, kills, landings, stuck);
  }

  lemma InTheEnd(sch: Schema, files: seq<seq<byte>>, segment: Segment, table: Rows, kills: seq<Kill>,
                 landings: seq<Option<nat>>, stuck: bool)
    requires |landings| <= |kills| && FilesOk(sch, files) && (stuck <==> |landings| < |kills|)
    requires SoFar(sch, files, segment, table, kills, landings, stuck)
    ensures Outcome(sch, files, segment, table, kills, landings)
  {
    assert kills[..|kills|] == kills;
  }

  /** The first kills of a schedule have taken place; or the next one has, and was the last. */
  ghost predicate SoFar(sch: Schema, files: seq<seq<byte>>, segment: Segment, table: Rows, kills: seq<Kill>,
                        landings: seq<Option<nat>>, stuck: bool)
    requires |landings| <= |kills| && FilesOk(sch, files) && (stuck ==> |landings| < |kills|)
    reads segment, segment.inserted, segment.inserted.entries
  {
    if stuck then Outcome(sch, files, segment, table, kills, landings)
    else Outcome(sch, files, segment, table, kills[..|landings|], landings)
  }

  method NextKill<A>(sch: Schema, files: seq<seq<byte>>, bufferSize: nat, kernel: Kernel<A>, raw: A,
                     segment: Segment, table: Rows, kills: seq<Kill>, landings: seq<Option<nat>>)
    returns (t: Rows, stuck: bool, more: seq<Option<nat>>)
    requires Importable(sch, files, kernel) && bufferSize >= 1
    requires |landings| < |kills| && SoFar(sch, files, segment, table, kills, landings, false)
    modifies segment, segment.inserted, segment.inserted.entries
    ensures |more| == |landings| + (if stuck then 0 else 1)
    ensures SoFar(sch, files, segment, t, kills, more, stuck)
    ensures segment.inserted.entries == old(segment.inserted.entries) || fresh(segment.inserted.entries)
  {
    hide Left, Stuck, RunEvents, EventsOf, Rounds, LastMoves, HashesWith, FilesFrom, FilesOk;
    var n := |landings|;
    assert kills[..n][..n] == kills[..n];
    var landing;
    t, stuck, landing :=
      KilledProcess(sch, files, bufferSize, kernel, raw, segment, table, kills[n], EventsOf(kills[..n], landings));
    more := landings;
    if !stuck {
      OneMoreKill(kills, landings, landing);
      more := landings + [landing];
      assert kills[..n + 1][..n + 1] == kills[..n + 1];
    }
  }

  lemma OneMoreKill(kills: seq<Kill>, landings: seq<Option<nat>>, landing: Option<nat>)
    requires |landings| < |kills|
    ensures var n := |landings|;
      EventsOf(kills[..n + 1], landings + [landing]) ==
      EventsOf(kills[..n], landings) + Rounds(kills[n].rounds) + LastMoves(kills[n].where, landing)
  {
    var n := |landings|;
    assert kills[..n + 1][..n] == kills[..n] && (landings + [landing])[..n] == landings;
  }

  /**
   What a schedule leaves.  All kills took place, each at the move that the state machine
   makes as well; or the next one, in a commit, left no position to go on from.
   */
  ghost predicate Outcome(sch: Schema, files: seq<seq<byte>>, segment: Segment, table: Rows, kills: seq<Kill>,
                          landings: seq<Option<nat>>)
    requires |landings| <= |kills| && FilesOk(sch, files)
    reads segment, segment.inserted, segment.inserted.entries
  {
    var all, past := FilesFrom(sch, files, 0), EventsOf(kills[..|landings|], landings);
    if |landings| == |kills| then Left(sch, files, segment, table, RunEvents(sch, all, INITIAL, past))
    else
      var next := kills[|landings|];
      && next.where.InCommit?
      && Stuck(sch, files, segment, table, RunEvents(sch, all, INITIAL, past + Rounds(next.rounds) + [Ask, Run]))
  }

  lemma NothingDone(sch: Schema, files: seq<seq<byte>>, segment: Segment, kills: seq<Kill>)
    requires FilesOk(sch, files) && files != []
    requires segment.inserted.Valid() && segment.inserted.Contents() == {}
    requires segment.committedHandleIdx == None && segment.committedOffset == None
    ensures SoFar(sch, files, segment, map[], kills, [], false)
  {
    hide RobinHoodTable.HashSet.Valid, RobinHoodTable.HashSet.Contents;
    assert kills[..0][..0] == [];
    var all := FilesFrom(sch, files, 0);
    assert all[0..] == all && all[..0] == [];
  }

  /** In either outcome the table is the last-write-wins fold of a first part of the records. */
  lemma TableIsAFold(sch: Schema, files: seq<seq<byte>>, segment: Segment, table: Rows, kills: seq<Kill>,
                     landings: seq<Option<nat>>)
    requires |landings| <= |kills| && FilesOk(sch, files) && Outcome(sch, files, segment, table, kills, landings)
    ensures exists n | 0 <= n <= |FilesFrom(sch, files, 0)| :: table == Fold(sch, FilesFrom(sch, files, 0)[..n])
  {
    hide RunEvents, EventsOf, Fold, FilesFrom, FilesOk, RobinHoodTable.HashSet.Valid, At;
    var all, past := FilesFrom(sch, files, 0), EventsOf(kills[..|landings|], landings);
    var s := RunEvents(sch, all, INITIAL, past + if |landings| == |kills| then [] else
      Rounds(kills[|landings|].rounds) + [Ask, Run]);
    assert past + [] == past;
    if |landings| < |kills| {
      var rounds := Rounds(kills[|landings|].rounds);
      assert past + (rounds + [Ask, Run]) == past + rounds + [Ask, Run];
    }
    assert table == Fold(sch, all[..s.applied]) && s.applied <= |all|;
  }

  /**
   However many processes are killed, wherever, the table they leave is the last-write-wins
   fold of a first part of the records.  Unless one of them was killed in a commit and left
   no position to go on from, two more processes that run to the end then make it the fold
   of all records of all files.
   */
  method ImportDespiteKills<A>(sch: Schema, files: seq<seq<byte>>, bufferSize: nat, kernel: Kernel<A>, raw: A,
                               index: (nat, nat) -> nat, kills: seq<Kill>)
    returns (segment: Segment, before: Rows, table: Rows, landings: seq<Option<nat>>)
    requires Importable(sch, files, kernel) && bufferSize >= 1 && InRange(index)
    ensures |landings| <= |kills|
    ensures exists n | 0 <= n <= |FilesFrom(sch, files, 0)| :: before == Fold(sch, FilesFrom(sch, files, 0)[..n])
    ensures |landings| < |kills| ==> table == before && Outcome(sch, files, segment, before, kills, landings)
    ensures |landings| == |kills| ==>
      && before == RunEvents(sch, FilesFrom(sch, files, 0), INITIAL, EventsOf(kills, landings)).table
      && table == Fold(sch, FilesFrom(sch, files, 0))
  {
    hide RobinHoodTable.HashSet.Valid, RobinHoodTable.HashSet.Contents, Inv, RunToStop, FilesFrom, HashesWith, Fold;
    hide RunEvents, EventsOf, At, Stuck;
    segment, before, landings := RunWithKills(sch, files, bufferSize, kernel, raw, index, kills);
    TableIsAFold(sch, files, segment, before, kills, landings);
    table := before;
    if |landings| == |kills| {
      assert kills[..|landings|] == kills;
      ghost var all := FilesFrom(sch, files, 0);
      ghost var s := RunEvents(sch, all, INITIAL, EventsOf(kills, landings));
      ghost var again := FirstRunFacts(sch, all, s);
      table := RestartAndRun(sch, files, bufferSize, kernel, raw, segment, before, s);
      table := RestartAndRun(sch, files, bufferSize, kernel, raw, segment, table, again);
    }
  }
}
