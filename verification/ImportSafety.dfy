/**
 What the import guarantees over every run: whatever crashes happen, the table is
 always the last-write-wins fold of a prefix of the records at least as long as the
 committed one, no statement is ever rejected, and two complete runs finish the job.
 */
module ImportSafety {
  import opened Options
  import opened Bytes
  import opened ImportModel

  // ---------------------------------------------------------------- the reference fold

  /** The fold has exactly the keys of the records seen. */
  lemma {:induction false} FoldKeys(sch: Schema, all: seq<Record>)
    ensures forall k :: k in Fold(sch, all) <==> exists i | 0 <= i < |all| :: sch.KeyOf(all[i]) == k
  {
    if all != [] {
      var most := all[..|all| - 1];
      FoldKeys(sch, most);
      forall k ensures k in Fold(sch, all) <==> exists i | 0 <= i < |all| :: sch.KeyOf(all[i]) == k {
        if i :| 0 <= i < |all| && sch.KeyOf(all[i]) == k {
          if i < |most| { assert most[i] == all[i]; }
        }
        if k in Fold(sch, most) {
          var i :| 0 <= i < |most| && sch.KeyOf(most[i]) == k;
          assert all[i] == most[i];
        }
      }
    }
  }

  /** No record seen is strictly newer than the row its key ended up with. */
  lemma {:induction false} FoldIsNewest(sch: Schema, all: seq<Record>, i: nat)
    requires sch.Valid() && i < |all|
    ensures sch.KeyOf(all[i]) in Fold(sch, all)
    ensures !sch.IsOlder(Fold(sch, all)[sch.KeyOf(all[i])], all[i])
  {
    var most := all[..|all| - 1];
    if i < |most| {
      assert most[i] == all[i];
      FoldIsNewest(sch, most, i);
    }
  }

  /** A row is one of the records with its key. */
  lemma {:induction false} FoldRowIsARecord(sch: Schema, all: seq<Record>, k: Key)
    requires sch.Valid() && k in Fold(sch, all)
    ensures exists i | 0 <= i < |all| :: all[i] == Fold(sch, all)[k] && sch.KeyOf(all[i]) == k
  {
    var most, last := all[..|all| - 1], all[|all| - 1];
    if k in Fold(sch, most) && Fold(sch, all)[k] == Fold(sch, most)[k] {
      FoldRowIsARecord(sch, most, k);
      var i :| 0 <= i < |most| && most[i] == Fold(sch, most)[k] && sch.KeyOf(most[i]) == k;
      assert all[i] == Fold(sch, all)[k];
    } else {
      assert all[|all| - 1] == Fold(sch, all)[k];
    }
  }

  /** Applying a record again changes nothing. */
  lemma ReplayHarmless(sch: Schema, all: seq<Record>, i: nat)
    requires sch.Valid() && i < |all|
    ensures Upsert(sch, Fold(sch, all), all[i]) == Fold(sch, all)
  {
    FoldIsNewest(sch, all, i);
  }

  lemma FoldNext(sch: Schema, all: seq<Record>, n: nat)
    requires n < |all|
    ensures Fold(sch, all[..n + 1]) == Upsert(sch, Fold(sch, all[..n]), all[n])
  {
    assert all[..n + 1][..n] == all[..n];
  }

  /** The update followed by the insert-if-absent is the upsert. */
  lemma UpdateThenInsertIsUpsert(sch: Schema, t: Rows, r: Record)
    ensures var u := Execute(sch, t, Update(r)).value;
      && Execute(sch, t, Update(r)).Some?
      && Execute(sch, u, InsertIfAbsent(r)) == Some(Upsert(sch, t, r))
      && u == if sch.KeyOf(r) in t then Upsert(sch, t, r) else t
  {}

  // ---------------------------------------------------------------- gathering

  /** The hashes of the first n records have been seen. */
  ghost predicate Seen(sch: Schema, all: seq<Record>, inserted: set<nat>, n: nat)
  {
    n <= |all| && forall i | 0 <= i < n :: sch.HashOf(all[i]) in inserted
  }

  /** The records [lo, hi) have keys of their own, met nowhere before them. */
  ghost predicate NewKeys(sch: Schema, all: seq<Record>, lo: nat, hi: nat)
  {
    && lo <= hi <= |all|
    && forall i, j | 0 <= i < j && lo <= j < hi :: sch.KeyOf(all[i]) != sch.KeyOf(all[j])
  }

  /** Where a gathering that starts at pos, with everything before pos seen, ends up. */
  lemma {:induction false} GatherFacts(sch: Schema, all: seq<Record>, inserted: set<nat>, pos: nat, size: nat)
    requires pos <= |all| && Seen(sch, all, inserted, pos)
    ensures var g := Gather(sch, all, inserted, pos, size);
      var end := if g.stop == Duplicate then g.pos - 1 else g.pos;
      && inserted <= g.inserted
      && Seen(sch, all, g.inserted, g.pos)
      && NewKeys(sch, all, pos, end)
      && (g.stop == EndOfInput ==> g.pos == |all|)
      && (g.stop == BatchFull ==> size + (g.pos - pos) == INSERT_NUM_TUPLES + 1 || size > INSERT_NUM_TUPLES)
    decreases |all| - pos
  {
    if size <= INSERT_NUM_TUPLES && pos < |all| {
      var h := sch.HashOf(all[pos]);
      if h !in inserted {
        GatherFacts(sch, all, inserted + {h}, pos + 1, size + 1);
        forall i | 0 <= i < pos ensures sch.KeyOf(all[i]) != sch.KeyOf(all[pos]) {
          assert sch.HashOf(all[i]) in inserted;
        }
      } else {
        forall i | 0 <= i < pos + 1 ensures sch.HashOf(all[i]) in inserted {}
      }
    }
  }

  /** A gathering that meets only seen hashes takes the first record as a duplicate at once. */
  lemma GatherSeen(sch: Schema, all: seq<Record>, inserted: set<nat>, pos: nat)
    requires pos <= |all| && Seen(sch, all, inserted, |all|)
    ensures Gather(sch, all, inserted, pos, 0) ==
      if pos == |all| then Gathered(inserted, pos, EndOfInput) else Gathered(inserted, pos + 1, Duplicate)
  {}

  lemma {:induction false} InsertedAfterGrows(sch: Schema, all: seq<Record>, inserted: set<nat>, pos: nat, k: nat)
    ensures inserted <= InsertedAfter(sch, all, inserted, pos, k)
    decreases k
  {
    if k > 0 && pos < |all| && sch.HashOf(all[pos]) !in inserted {
      InsertedAfterGrows(sch, all, inserted + {sch.HashOf(all[pos])}, pos + 1, k - 1);
    }
  }

  /** A batch of new keys is accepted, and extends the fold by the whole batch. */
  lemma {:induction false} BatchExtendsFold(sch: Schema, all: seq<Record>, lo: nat, hi: nat)
    requires NewKeys(sch, all, lo, hi)
    ensures InsertRows(sch, Fold(sch, all[..lo]), all[lo..hi]) == Some(Fold(sch, all[..hi]))
    decreases hi
  {
    if lo < hi {
      BatchExtendsFold(sch, all, lo, hi - 1);
      var batch := all[lo..hi];
      assert batch[..|batch| - 1] == all[lo..hi - 1];
      FoldNext(sch, all, hi - 1);
      FoldKeys(sch, all[..hi - 1]);
      assert sch.KeyOf(all[hi - 1]) !in Fold(sch, all[..hi - 1]);
    } else {
      assert all[lo..hi] == [];
    }
  }

  // ---------------------------------------------------------------- the invariant

  /** Record number i, already seen, is next or has been applied before. */
  ghost predicate Retrying(sch: Schema, all: seq<Record>, s: System, i: int)
  {
    && 0 <= i < |all| && i <= s.applied
    && sch.HashOf(all[i]) in s.builder.inserted
  }

  /** An insert-if-absent of record i is owed: if it is the next one, its key is not there yet. */
  ghost predicate InsertOwed(sch: Schema, all: seq<Record>, s: System, i: int)
  {
    && Retrying(sch, all, s, i)
    && (i == s.applied ==> sch.KeyOf(all[i]) !in s.table)
  }

  ghost predicate PhaseOk(sch: Schema, all: seq<Record>, s: System)
    requires BuilderOk(all, s.builder)
  {
    var b := s.builder;
    match s.phase
    case Idle => BuilderPlaced(sch, all, s) && (b.insertPending || b.committed == Owed(b))
    case Executed => BuilderPlaced(sch, all, s)
    case Issued(q) =>
      (match q
       case NoMore => false
       case BulkInsert(records) =>
         && !b.insertPending && s.applied + |records| == Owed(b)
         && records == all[s.applied..Owed(b)] && NewKeys(sch, all, s.applied, Owed(b))
         && Seen(sch, all, b.inserted, b.pos)
       case Update(r) => b.insertPending && r == all[b.pos - 1] && Retrying(sch, all, s, b.pos - 1)
       case InsertIfAbsent(r) =>
         b.pos > 0 && !b.insertPending && !b.tmp && r == all[b.pos - 1] && InsertOwed(sch, all, s, b.pos - 1))
    case Stopped =>
      && !b.tmp && !b.insertPending && b.committed == s.applied
      && Seen(sch, all, b.inserted, |all|)
    case Rejected => false
    case Derailed => false
  }

  ghost predicate BuilderPlaced(sch: Schema, all: seq<Record>, s: System)
    requires BuilderOk(all, s.builder)
  {
    var b := s.builder;
    if b.insertPending then InsertOwed(sch, all, s, b.pos - 1)
    else if b.tmp then Retrying(sch, all, s, b.pos - 1)
    else b.pos <= s.applied
  }

  /** Holds in every state the system can reach. */
  ghost predicate Inv(sch: Schema, all: seq<Record>, s: System)
  {
    && BuilderOk(all, s.builder)
    && s.builder.committed <= s.applied <= |all|
    && s.table == Fold(sch, all[..s.applied])
    && Seen(sch, all, s.builder.inserted, s.applied)
    && PhaseOk(sch, all, s)
  }

  lemma AskKeepsInv(sch: Schema, all: seq<Record>, s: System)
    requires Inv(sch, all, s)
    ensures Inv(sch, all, Step(sch, all, s, Ask))
  {
    var b := s.builder;
    if s.phase == Idle && !b.tmp && !b.insertPending {
      AskGathers(sch, all, s);
    }
  }

  lemma AskGathers(sch: Schema, all: seq<Record>, s: System)
    requires Inv(sch, all, s) && s.phase == Idle && !s.builder.tmp && !s.builder.insertPending
    ensures Inv(sch, all, Step(sch, all, s, Ask))
  {
    hide Fold, Gather, NewKeys;
    var b := s.builder;
    if b.pos == s.applied {
      GatherFacts(sch, all, b.inserted, b.pos, 0);
    } else {
      GatherStartsAtApplied(sch, all, s);
    }
  }

  /** Below the applied position every record is a known duplicate; a batch can only start at it. */
  lemma GatherStartsAtApplied(sch: Schema, all: seq<Record>, s: System)
    requires Inv(sch, all, s) && s.builder.pos < s.applied
    ensures Gather(sch, all, s.builder.inserted, s.builder.pos, 0) ==
      Gathered(s.builder.inserted, s.builder.pos + 1, Duplicate)
  {}

  lemma RunKeepsInv(sch: Schema, all: seq<Record>, s: System)
    requires sch.Valid() && Inv(sch, all, s)
    ensures Inv(sch, all, Step(sch, all, s, Run))
  {
    if s.phase.Issued? {
      match s.phase.q {
        case BulkInsert(records) => RunBulkInsert(sch, all, s);
        case Update(r) => RunUpdate(sch, all, s, r);
        case InsertIfAbsent(r) => RunInsertIfAbsent(sch, all, s, r);
      }
    }
  }

  lemma RunBulkInsert(sch: Schema, all: seq<Record>, s: System)
    requires sch.Valid() && Inv(sch, all, s) && s.phase.Issued? && s.phase.q.BulkInsert?
    ensures Inv(sch, all, Step(sch, all, s, Run))
  {
    hide Fold, InsertRows;
    BatchExtendsFold(sch, all, s.applied, Owed(s.builder));
  }

  lemma RunUpdate(sch: Schema, all: seq<Record>, s: System, r: Record)
    requires sch.Valid() && Inv(sch, all, s) && s.phase == Issued(Update(r))
    ensures Inv(sch, all, Step(sch, all, s, Run))
  {
    hide Fold, Upsert;
    RetryStep(sch, all, s, r);
    UpdateThenInsertIsUpsert(sch, s.table, r);
  }

  lemma RunInsertIfAbsent(sch: Schema, all: seq<Record>, s: System, r: Record)
    requires sch.Valid() && Inv(sch, all, s) && s.phase == Issued(InsertIfAbsent(r))
    ensures Inv(sch, all, Step(sch, all, s, Run))
  {
    hide Fold;
    RetryStep(sch, all, s, r);
  }

  /** Record pos - 1 against the table: applied before, it changes nothing; next in line, it extends the fold. */
  lemma RetryStep(sch: Schema, all: seq<Record>, s: System, r: Record)
    requires sch.Valid() && Inv(sch, all, s) && s.builder.pos > 0
    requires r == all[s.builder.pos - 1] && Retrying(sch, all, s, s.builder.pos - 1)
    ensures var i := s.builder.pos - 1;
      && UpsertedTo(sch, all, s, i, if i == s.applied then i + 1 else s.applied)
      && (i < s.applied ==> sch.KeyOf(r) in s.table)
  {
    var i := s.builder.pos - 1;
    if i < s.applied {
      assert all[..s.applied][i] == all[i];
      ReplayHarmless(sch, all[..s.applied], i);
      FoldIsNewest(sch, all[..s.applied], i);
    } else {
      FoldNext(sch, all, i);
    }
    UpdateThenInsertIsUpsert(sch, s.table, r);
  }

  ghost predicate UpsertedTo(sch: Schema, all: seq<Record>, s: System, i: nat, n: nat)
  {
    i < |all| && n <= |all| && Upsert(sch, s.table, all[i]) == Fold(sch, all[..n])
  }

  /** A crash between the two stores of a commit leaves the position of a record already applied. */
  predicate Lands(s: System, e: Event)
  {
    e.CrashWhileCommitting? && Storing(s) ==> e.landing.Some? && e.landing.value <= s.applied
  }

  /** Every such crash of a schedule does. */
  predicate AllLand(sch: Schema, all: seq<Record>, events: seq<Event>)
  {
    events == [] ||
    (AllLand(sch, all, events[..|events| - 1]) &&
     Lands(RunEvents(sch, all, INITIAL, events[..|events| - 1]), events[|events| - 1]))
  }

  /** Every move and every crash keeps the invariant, except a commit cut in two that does not land well. */
  lemma StepKeepsInvIff(sch: Schema, all: seq<Record>, s: System, e: Event)
    requires sch.Valid() && Inv(sch, all, s)
    ensures BuilderOk(all, s.builder)
    ensures Inv(sch, all, Step(sch, all, s, e)) <==> Lands(s, e)
  {
    match e
    case Ask => AskKeepsInv(sch, all, s);
    case Run => RunKeepsInv(sch, all, s);
    case Acknowledge =>
    case Crash =>
    case CrashWhileAsking(k) => InsertedAfterGrows(sch, all, s.builder.inserted, s.builder.pos, k);
    case CrashWhileCommitting(landing) =>
  }

  /** Every schedule of moves and crashes. */
  lemma {:induction false} EveryRunKeepsInv(sch: Schema, all: seq<Record>, events: seq<Event>)
    requires sch.Valid() && AllLand(sch, all, events)
    ensures Inv(sch, all, RunEvents(sch, all, INITIAL, events))
  {
    if events == [] {
      assert all[..0] == [];
    } else {
      EveryRunKeepsInv(sch, all, events[..|events| - 1]);
      StepKeepsInvIff(sch, all, RunEvents(sch, all, INITIAL, events[..|events| - 1]), events[|events| - 1]);
    }
  }

  /** Crashes anywhere else need no luck. */
  lemma {:induction false} OtherCrashesLand(sch: Schema, all: seq<Record>, events: seq<Event>)
    requires forall e | e in events :: !e.CrashWhileCommitting?
    ensures AllLand(sch, all, events)
  {
    if events != [] {
      OtherCrashesLand(sch, all, events[..|events| - 1]);
      assert events[|events| - 1] in events;
    }
  }

  /**
   Safety: at any time the table is the last-write-wins fold of a prefix at least as
   long as the committed one, and no statement has been rejected.
   */
  lemma TableIsAlwaysAFold(sch: Schema, all: seq<Record>, events: seq<Event>)
    requires sch.Valid() && AllLand(sch, all, events)
    ensures var s := RunEvents(sch, all, INITIAL, events);
      && s.phase != Rejected && s.phase != Derailed
      && exists n | s.builder.committed <= n <= |all| :: s.table == Fold(sch, all[..n])
  {
    hide Fold;
    EveryRunKeepsInv(sch, all, events);
    var s := RunEvents(sch, all, INITIAL, events);
    assert s.table == Fold(sch, all[..s.applied]);
  }

  /** A bulk insert never carries a key that is in the table, nor the same key twice. */
  lemma BulkInsertsOnlyNewKeys(sch: Schema, all: seq<Record>, events: seq<Event>)
    requires sch.Valid() && AllLand(sch, all, events)
    ensures var s := RunEvents(sch, all, INITIAL, events);
      s.phase.Issued? && s.phase.q.BulkInsert? ==>
        var rs := s.phase.q.records;
        && (forall j | 0 <= j < |rs| :: sch.KeyOf(rs[j]) !in s.table)
        && (forall i, j | 0 <= i < j < |rs| :: sch.KeyOf(rs[i]) != sch.KeyOf(rs[j]))
  {
    hide Inv, NewKeys, RunEvents, Fold;
    EveryRunKeepsInv(sch, all, events);
    var s := RunEvents(sch, all, INITIAL, events);
    if s.phase.Issued? && s.phase.q.BulkInsert? {
      IssuedBatch(sch, all, s);
      NewKeysOfBatch(sch, all, s.applied, s.applied + |s.phase.q.records|);
    }
  }

  lemma IssuedBatch(sch: Schema, all: seq<Record>, s: System)
    requires Inv(sch, all, s) && s.phase.Issued? && s.phase.q.BulkInsert?
    ensures var n := s.applied + |s.phase.q.records|;
      n <= |all| && s.phase.q.records == all[s.applied..n] && NewKeys(sch, all, s.applied, n)
    ensures s.table == Fold(sch, all[..s.applied])
  {}

  /** New keys are not in the fold of what comes before them, and differ. */
  lemma NewKeysOfBatch(sch: Schema, all: seq<Record>, lo: nat, hi: nat)
    requires lo <= hi <= |all| && NewKeys(sch, all, lo, hi)
    ensures var rs := all[lo..hi];
      && (forall j | 0 <= j < |rs| :: sch.KeyOf(rs[j]) !in Fold(sch, all[..lo]))
      && (forall i, j | 0 <= i < j < |rs| :: sch.KeyOf(rs[i]) != sch.KeyOf(rs[j]))
  {
    hide Fold;
    FoldKeys(sch, all[..lo]);
    var rs := all[lo..hi];
    forall j | 0 <= j < |rs| ensures sch.KeyOf(rs[j]) !in Fold(sch, all[..lo]) {
      assert rs[j] == all[lo + j];
    }
    forall i, j | 0 <= i < j < |rs| ensures sch.KeyOf(rs[i]) != sch.KeyOf(rs[j]) {
      assert rs[i] == all[lo + i] && rs[j] == all[lo + j];
    }
  }

  // ---------------------------------------------------------------- complete runs

  /** A complete run ends with nothing more to ask for, in a state that satisfies the invariant. */
  lemma {:induction false} CompleteRunStops(sch: Schema, all: seq<Record>, s: System)
    requires sch.Valid() && Inv(sch, all, s) && s.phase == Idle
    ensures var r := RunToStop(sch, all, s);
      && r.phase == Stopped && Inv(sch, all, r)
      && (Seen(sch, all, s.builder.inserted, |all|) ==> r.applied == |all|)
    decreases |all| - s.builder.pos, if s.builder.tmp then 2 else if s.builder.insertPending then 1 else 0
  {
    var done := OneRound(sch, all, s);
    if done.phase == Idle {
      CompleteRunStops(sch, all, done);
    }
  }

  /** Ask, run, acknowledge. */
  lemma OneRound(sch: Schema, all: seq<Record>, s: System) returns (done: System)
    requires BuilderOk(all, s.builder)
    requires sch.Valid() && Inv(sch, all, s) && s.phase == Idle
    ensures done == Step(sch, all, Step(sch, all, Step(sch, all, s, Ask), Run), Acknowledge)
    ensures Inv(sch, all, done) && (done.phase == Idle || done.phase == Stopped)
    ensures s.builder.inserted <= done.builder.inserted
    ensures Seen(sch, all, s.builder.inserted, |all|) && done.phase == Stopped ==> done.applied == |all|
  {
    hide Inv;
    var asked := Step(sch, all, s, Ask);
    AskKeepsInv(sch, all, s);
    AskedPhase(sch, all, s);
    var ran := Step(sch, all, asked, Run);
    RunKeepsInv(sch, all, asked);
    RanPhase(sch, all, asked);
    done := Step(sch, all, ran, Acknowledge);
    StepKeepsInvIff(sch, all, ran, Acknowledge);
  }

  lemma AskedPhase(sch: Schema, all: seq<Record>, s: System)
    requires Inv(sch, all, s) && s.phase == Idle
    ensures var asked := Step(sch, all, s, Ask);
      && (asked.phase == Stopped || asked.phase.Issued?)
      && s.builder.inserted <= asked.builder.inserted
      && (Seen(sch, all, s.builder.inserted, |all|) && asked.phase == Stopped ==> asked.applied == |all|)
  {
    var b := s.builder;
    GatherGrows(sch, all, b.inserted, b.pos, 0);
    if Seen(sch, all, b.inserted, |all|) {
      GatherSeen(sch, all, b.inserted, b.pos);
    }
  }

  lemma {:induction false} GatherGrows(sch: Schema, all: seq<Record>, inserted: set<nat>, pos: nat, size: nat)
    requires pos <= |all|
    ensures inserted <= Gather(sch, all, inserted, pos, size).inserted
    decreases |all| - pos
  {
    if size <= INSERT_NUM_TUPLES && pos < |all| && sch.HashOf(all[pos]) !in inserted {
      GatherGrows(sch, all, inserted + {sch.HashOf(all[pos])}, pos + 1, size + 1);
    }
  }

  lemma RanPhase(sch: Schema, all: seq<Record>, s: System)
    requires Inv(sch, all, s) && Inv(sch, all, Step(sch, all, s, Run))
    ensures var ran := Step(sch, all, s, Run);
      && ran.builder == s.builder
      && (s.phase.Issued? ==> ran.phase == Executed)
      && (!s.phase.Issued? ==> ran == s)
  {}

  /**
   A run that has ended: what it did not deliver is exactly what follows the committed
   position, and the hashes of all of that are already recorded as inserted.
   */
  lemma WhatACompleteRunLeaves(sch: Schema, all: seq<Record>, events: seq<Event>)
    requires sch.Valid() && AllLand(sch, all, events)
    ensures var s := RunEvents(sch, all, INITIAL, events);
      s.phase == Stopped ==>
        && s.table == Fold(sch, all[..s.builder.committed])
        && forall i | 0 <= i < |all| :: sch.HashOf(all[i]) in s.builder.inserted
  {
    EveryRunKeepsInv(sch, all, events);
  }

  /** After any history of moves and crashes, a restart and two complete runs import everything. */
  lemma TwoRunsImportEverything(sch: Schema, all: seq<Record>, events: seq<Event>)
    requires sch.Valid() && AllLand(sch, all, events)
    ensures var s := RunEvents(sch, all, INITIAL, events);
      s.phase != Derailed &&
      var s0 := Step(sch, all, s, Crash);
      var s1 := Step(sch, all, RunToStop(sch, all, s0), Crash);
      var s2 := RunToStop(sch, all, s1);
      s2.phase == Stopped && s2.table == Fold(sch, all) && s2.builder.committed == |all|
  {
    EveryRunKeepsInv(sch, all, events);
    var s := RunEvents(sch, all, INITIAL, events);
    var s0 := Step(sch, all, s, Crash);
    StepKeepsInvIff(sch, all, s, Crash);
    CompleteRunStops(sch, all, s0);
    var r := RunToStop(sch, all, s0);
    var s1 := Step(sch, all, r, Crash);
    StepKeepsInvIff(sch, all, r, Crash);
    CompleteRunStops(sch, all, s1);
    assert all[..|all|] == all;
  }
}
