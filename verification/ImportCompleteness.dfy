/**
 What one complete run leaves behind: the batch that is being gathered when the
 input ends is dropped.  How long it is follows from the hashes alone.
 */
module ImportCompleteness {
  import opened ImportModel
  import opened ImportSafety

  const BATCH: nat := INSERT_NUM_TUPLES + 1

  /** Record i has a hash that is recorded, or that a record from pos on has before it. */
  predicate Known(sch: Schema, all: seq<Record>, inserted: set<nat>, pos: nat, i: nat)
    requires i < |all|
  {
    sch.HashOf(all[i]) in inserted || exists j | pos <= j < i :: sch.HashOf(all[j]) == sch.HashOf(all[i])
  }

  /** One past the last known record between pos and n, or pos when there is none. */
  function LastKnown(sch: Schema, all: seq<Record>, inserted: set<nat>, pos: nat, n: nat): (d: nat)
    requires pos <= n <= |all|
    ensures pos <= d <= n && (d > pos ==> Known(sch, all, inserted, pos, d - 1))
    ensures forall i | d <= i < n :: !Known(sch, all, inserted, pos, i)
  {
    if n == pos then pos
    else if Known(sch, all, inserted, pos, n - 1) then n
    else LastKnown(sch, all, inserted, pos, n - 1)
  }

  /** How many records the last batch, the one dropped, holds. */
  function Dropped(sch: Schema, all: seq<Record>, inserted: set<nat>, pos: nat): (r: nat)
    requires pos <= |all|
    ensures r <= |all|
  {
    (|all| - LastKnown(sch, all, inserted, pos, |all|)) % BATCH
  }

  ghost function Hashes(sch: Schema, all: seq<Record>, lo: nat, hi: nat): set<nat>
    requires lo <= hi <= |all|
  {
    set j | lo <= j < hi :: sch.HashOf(all[j])
  }

  /** What is known does not change when the records read so far are recorded. */
  lemma KnownMoves(sch: Schema, all: seq<Record>, inserted: set<nat>, pos: nat, p: nat, i: nat)
    requires pos <= p <= i < |all|
    ensures Known(sch, all, inserted + Hashes(sch, all, pos, p), p, i) <==> Known(sch, all, inserted, pos, i)
  {
    if Known(sch, all, inserted, pos, i) && sch.HashOf(all[i]) !in inserted {
      var j :| pos <= j < i && sch.HashOf(all[j]) == sch.HashOf(all[i]);
      if j < p { assert sch.HashOf(all[j]) in Hashes(sch, all, pos, p); }
    }
  }

  lemma LastKnownMoves(sch: Schema, all: seq<Record>, inserted: set<nat>, pos: nat, p: nat)
    requires pos <= p <= |all|
    ensures var d := LastKnown(sch, all, inserted, pos, |all|);
      LastKnown(sch, all, inserted + Hashes(sch, all, pos, p), p, |all|) == if d > p then d else p
  {
    hide Known, Hashes;
    var d := LastKnown(sch, all, inserted, pos, |all|);
    var d' := LastKnown(sch, all, inserted + Hashes(sch, all, pos, p), p, |all|);
    if d > p { KnownMoves(sch, all, inserted, pos, p, d - 1); }
    if d' > p { KnownMoves(sch, all, inserted, pos, p, d' - 1); }
  }

  lemma KnownAtOnce(sch: Schema, all: seq<Record>, inserted: set<nat>, pos: nat)
    requires pos < |all|
    ensures Known(sch, all, inserted, pos, pos) <==> sch.HashOf(all[pos]) in inserted
  {}

  /** A gathering records the hashes of what it reads, and passes only unknown records. */
  lemma {:induction false} GatherScans(sch: Schema, all: seq<Record>, inserted: set<nat>, pos: nat, size: nat)
    requires pos <= |all| && size <= BATCH
    ensures var g := Gather(sch, all, inserted, pos, size);
      var end := if g.stop == Duplicate then g.pos - 1 else g.pos;
      && g.inserted == inserted + Hashes(sch, all, pos, g.pos)
      && (forall i | pos <= i < end :: !Known(sch, all, inserted, pos, i))
      && (g.stop == Duplicate ==> Known(sch, all, inserted, pos, g.pos - 1) && size + (g.pos - pos) <= BATCH)
      && (g.stop == BatchFull ==> size + (g.pos - pos) == BATCH)
      && (g.stop == EndOfInput ==> g.pos == |all| && size + (g.pos - pos) < BATCH)
    decreases |all| - pos
  {
    hide Known, Hashes;
    NoHashes(sch, all, pos);
    if size <= INSERT_NUM_TUPLES && pos < |all| {
      var h := sch.HashOf(all[pos]);
      var g := Gather(sch, all, inserted, pos, size);
      KnownAtOnce(sch, all, inserted, pos);
      FirstHash(sch, all, pos, g.pos);
      NoHashes(sch, all, pos + 1);
      FirstHash(sch, all, pos, pos + 1);
      if h !in inserted {
        assert inserted + Hashes(sch, all, pos, pos + 1) == inserted + {h};
        GatherScans(sch, all, inserted + {h}, pos + 1, size + 1);
        forall i | pos + 1 <= i < g.pos
          ensures Known(sch, all, inserted + {h}, pos + 1, i) <==> Known(sch, all, inserted, pos, i)
        {
          KnownMoves(sch, all, inserted, pos, pos + 1, i);
        }
      }
    }
  }

  /** A gathering fills a batch exactly if the next 501 records are all unknown. */
  lemma BatchIsFullIff(sch: Schema, all: seq<Record>, inserted: set<nat>, pos: nat)
    requires pos <= |all|
    ensures var g := Gather(sch, all, inserted, pos, 0);
      && (g.stop == BatchFull <==>
            pos + 501 <= |all| && forall i | pos <= i < pos + 501 :: !Known(sch, all, inserted, pos, i))
      && (g.stop == BatchFull ==> g.pos == pos + 501)
  {
    hide Known, Gather;
    GatherScans(sch, all, inserted, pos, 0);
  }

  lemma NoHashes(sch: Schema, all: seq<Record>, pos: nat)
    requires pos <= |all|
    ensures Hashes(sch, all, pos, pos) == {}
  {}

  lemma FirstHash(sch: Schema, all: seq<Record>, pos: nat, hi: nat)
    requires pos < |all| && pos <= hi <= |all|
    ensures pos < hi ==> Hashes(sch, all, pos, hi) == {sch.HashOf(all[pos])} + Hashes(sch, all, pos + 1, hi)
  {}

  /** One round moves the builder as next_query does; only the end of the input stops the run. */
  lemma RoundMoves(sch: Schema, all: seq<Record>, s: System, done: System)
    requires BuilderOk(all, s.builder) && s.phase == Idle
    requires done == Step(sch, all, Step(sch, all, Step(sch, all, s, Ask), Run), Acknowledge)
    requires done.phase == Idle || done.phase == Stopped
    ensures var b := s.builder;
      if b.tmp || b.insertPending then
        done.phase == Idle && done.builder.pos == b.pos && done.builder.inserted == b.inserted
      else
        var g := Gather(sch, all, b.inserted, b.pos, 0);
        && done.builder.pos == g.pos && done.builder.inserted == g.inserted
        && (done.phase == Stopped <==> g.stop == EndOfInput)
        && (g.stop == EndOfInput ==> done.applied == s.applied)
  {}

  /** A complete run delivers everything but the last, dropped batch. */
  lemma {:induction false} RunDelivers(sch: Schema, all: seq<Record>, s: System)
    requires sch.Valid() && Inv(sch, all, s) && s.phase == Idle
    ensures BuilderOk(all, s.builder)
    ensures RunToStop(sch, all, s).applied == |all| - Dropped(sch, all, s.builder.inserted, s.builder.pos)
    decreases |all| - s.builder.pos, if s.builder.tmp then 2 else if s.builder.insertPending then 1 else 0
  {
    hide Inv, Known, Gather, Dropped;
    ReadSoFar(sch, all, s);
    var b := s.builder;
    var done := OneRound(sch, all, s);
    RoundMoves(sch, all, s, done);
    if !b.tmp && !b.insertPending {
      GatherDrops(sch, all, s);
    }
    if done.phase == Idle { RunDelivers(sch, all, done); }
  }

  /** A batch that is delivered takes nothing from the one that will be dropped. */
  lemma GatherDrops(sch: Schema, all: seq<Record>, s: System)
    requires sch.Valid() && Inv(sch, all, s) && s.phase == Idle && !s.builder.tmp && !s.builder.insertPending
    ensures BuilderOk(all, s.builder)
    ensures var b := s.builder;
      var g := Gather(sch, all, b.inserted, b.pos, 0);
      && (g.stop != EndOfInput ==> g.pos > b.pos)
      && if g.stop == EndOfInput then s.applied == |all| - Dropped(sch, all, b.inserted, b.pos)
      else Dropped(sch, all, g.inserted, g.pos) == Dropped(sch, all, b.inserted, b.pos)
  {
    hide Inv, Known, Gather, Hashes, LastKnown;
    ReadSoFar(sch, all, s);
    var b := s.builder;
    var g := Gather(sch, all, b.inserted, b.pos, 0);
    GatherScans(sch, all, b.inserted, b.pos, 0);
    if b.pos < s.applied { GatherStartsAtApplied(sch, all, s); }
    LastKnownMoves(sch, all, b.inserted, b.pos, g.pos);
    WholeBatchLess(|all|, b.pos);
  }

  lemma WholeBatchLess(n: nat, pos: nat)
    ensures pos + BATCH <= n ==> (n - (pos + BATCH)) % BATCH == (n - pos) % BATCH
    ensures n - BATCH < pos <= n ==> (n - pos) % BATCH == n - pos
  {}

  /** Everything read by an idle builder has its hash recorded, and no more than that is applied early. */
  lemma ReadSoFar(sch: Schema, all: seq<Record>, s: System)
    requires Inv(sch, all, s) && s.phase == Idle
    ensures BuilderOk(all, s.builder) && s.applied <= |all|
    ensures s.table == Fold(sch, all[..s.applied])
    ensures Seen(sch, all, s.builder.inserted, s.builder.pos)
    ensures !s.builder.tmp && !s.builder.insertPending ==> s.builder.pos <= s.applied
  {}

  /** The hash of an undelivered record is new, so its key is. */
  lemma UndeliveredIsMissing(sch: Schema, all: seq<Record>, s: System, n: nat)
    requires Inv(sch, all, s) && s.phase == Idle && n < |all| && s.builder.pos <= n
    requires !Known(sch, all, s.builder.inserted, s.builder.pos, n)
    ensures Fold(sch, all[..n]) != Fold(sch, all)
  {
    hide Fold, Inv;
    ReadSoFar(sch, all, s);
    FoldKeys(sch, all);
    FoldKeys(sch, all[..n]);
    forall i | 0 <= i < n ensures sch.KeyOf(all[..n][i]) != sch.KeyOf(all[n]) {
      assert all[..n][i] == all[i] && sch.HashOf(all[i]) != sch.HashOf(all[n]);
    }
    assert sch.KeyOf(all[n]) in Fold(sch, all) && sch.KeyOf(all[n]) !in Fold(sch, all[..n]);
  }

  /**
   One complete run imports everything if and only if the records after the last
   known one fill whole batches; otherwise it leaves out the last, partial batch.
   */
  lemma OneRunImportsIff(sch: Schema, all: seq<Record>, s: System)
    requires sch.Valid() && Inv(sch, all, s) && s.phase == Idle && BuilderOk(all, s.builder)
    ensures var r := RunToStop(sch, all, s);
      && r.phase == Stopped
      && r.table == Fold(sch, all[..|all| - Dropped(sch, all, s.builder.inserted, s.builder.pos)])
      && (r.table == Fold(sch, all) <==> Dropped(sch, all, s.builder.inserted, s.builder.pos) == 0)
  {
    hide Inv, RunToStop, Fold, Known, LastKnown, Dropped;
    CompleteRunStops(sch, all, s);
    RunDelivers(sch, all, s);
    StoppedTable(sch, all, RunToStop(sch, all, s));
    DroppedAreUnknown(sch, all, s.builder);
    var n := |all| - Dropped(sch, all, s.builder.inserted, s.builder.pos);
    if n < |all| {
      UndeliveredIsMissing(sch, all, s, n);
    } else {
      assert all[..n] == all;
    }
  }

  lemma StoppedTable(sch: Schema, all: seq<Record>, s: System)
    requires Inv(sch, all, s)
    ensures s.applied <= |all| && s.table == Fold(sch, all[..s.applied])
  {}

  lemma DroppedAreUnknown(sch: Schema, all: seq<Record>, b: Builder)
    requires b.pos <= |all|
    ensures var n := |all| - Dropped(sch, all, b.inserted, b.pos);
      b.pos <= n && forall i | n <= i < |all| :: !Known(sch, all, b.inserted, b.pos, i)
  {
    hide Known;
  }

  /** The smallest case: the only record of the input is never delivered. */
  lemma OnlyRecordIsDropped(sch: Schema, r: Record)
    requires sch.Valid()
    ensures var s := RunToStop(sch, [r], INITIAL);
      s.phase == Stopped && s.table == map[] && Fold(sch, [r]) == map[sch.KeyOf(r) := r]
  {
    EveryRunKeepsInv(sch, [r], []);
    OneRunImportsIff(sch, [r], INITIAL);
    assert LastKnown(sch, [r], {}, 0, 1) == 0;
    assert [r][..0] == [];
  }
}
