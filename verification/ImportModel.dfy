/**
 The import as a state machine: records are read in order, turned into SQL
 statements, executed and committed, with crashes between any two of these moves,
 while records are gathered, and between the two stores of a commit.

 What survives a crash is the table, the set of hashes already seen and the
 committed position; everything else is rebuilt by a restart.
 */
module ImportModel {
  import opened Options
  import opened Bytes

  /** A record is its column values, at least one; the last column is updated_at. */
  type Record = r: seq<seq<byte>> | r != [] witness [[]]

  /** Row identity is the list of unique-column values. */
  type Key = seq<seq<byte>>

  type Rows = map<Key, Record>

  /**
   The table's columns, the comparison behind `updated_at` < '...', and the hash of
   the concatenated unique columns.  Any hash function will do.
   */
  datatype Schema = Schema(columns: nat, unique: set<nat>, floats: set<nat>,
                           normalize: seq<byte> -> seq<byte>,
                           older: (seq<byte>, seq<byte>) -> bool,
                           hash: seq<byte> -> nat)
  {
    ghost predicate Valid()
    {
      && columns > 0
      && (forall a :: !older(a, a))
      && (forall a, b, c :: older(a, b) && older(b, c) ==> older(a, c))
    }

    /** The values of the unique columns, in column order. */
    function UniqueColumns(columns: seq<seq<byte>>): Key
    {
      if columns == [] then []
      else
        var last := |columns| - 1;
        UniqueColumns(columns[..last]) + (if last in unique then [columns[last]] else [])
    }

    function KeyOf(r: Record): Key { UniqueColumns(r) }

    function HashOf(r: Record): nat
    {
      hash(Flatten(KeyOf(r)))
    }

    predicate IsOlder(row: Record, r: Record)
    {
      older(row[|row| - 1], r[|r| - 1])
    }
  }

  const INSERT_NUM_TUPLES: nat := 500

  /** What next_query hands out; the empty string is NoMore. */
  datatype Statement =
    | NoMore | BulkInsert(records: seq<Record>) | Update(record: Record) | InsertIfAbsent(record: Record)

  // ---------------------------------------------------------------- what the statements do

  /** A bulk insert fails as a whole when it meets a key that is already there. */
  function InsertRows(sch: Schema, t: Rows, records: seq<Record>): Option<Rows>
  {
    if records == [] then Some(t)
    else
      match InsertRows(sch, t, records[..|records| - 1])
      case None => None
      case Some(u) =>
        var r := records[|records| - 1];
        if sch.KeyOf(r) in u then None else Some(u[sch.KeyOf(r) := r])
  }

  /** The effect of a statement on the table; None when the server rejects it. */
  function Execute(sch: Schema, t: Rows, q: Statement): Option<Rows>
  {
    match q
    case NoMore => Some(t)
    case BulkInsert(records) => InsertRows(sch, t, records)
    case Update(r) =>
      var k := sch.KeyOf(r);
      Some(if k in t && sch.IsOlder(t[k], r) then t[k := r] else t)
    case InsertIfAbsent(r) =>
      var k := sch.KeyOf(r);
      Some(if k in t then t else t[k := r])
  }

  // ---------------------------------------------------------------- the reference: last write wins

  function Upsert(sch: Schema, t: Rows, r: Record): Rows
  {
    var k := sch.KeyOf(r);
    if k in t && !sch.IsOlder(t[k], r) then t else t[k := r]
  }

  function Fold(sch: Schema, all: seq<Record>): Rows
  {
    if all == [] then map[] else Upsert(sch, Fold(sch, all[..|all| - 1]), all[|all| - 1])
  }

  // ---------------------------------------------------------------- the query builder, on positions

  /** Counted in records of the whole input: pos is read, pending marks what is still owed for record pos - 1. */
  datatype Builder = Builder(inserted: set<nat>, committed: nat, pos: nat, tmp: bool, insertPending: bool)

  datatype Stop = EndOfInput | BatchFull | Duplicate

  datatype Gathered = Gathered(inserted: set<nat>, pos: nat, stop: Stop)

  /** Reads on while records are new and the batch has room; the first duplicate is read as well. */
  function Gather(sch: Schema, all: seq<Record>, inserted: set<nat>, pos: nat, size: nat): (g: Gathered)
    requires pos <= |all|
    ensures pos <= g.pos <= |all| && (g.stop == Duplicate ==> pos < g.pos)
    decreases |all| - pos
  {
    if size > INSERT_NUM_TUPLES then Gathered(inserted, pos, BatchFull)
    else if pos == |all| then Gathered(inserted, pos, EndOfInput)
    else if sch.HashOf(all[pos]) in inserted then Gathered(inserted, pos + 1, Duplicate)
    else Gather(sch, all, inserted + {sch.HashOf(all[pos])}, pos + 1, size + 1)
  }

  predicate BuilderOk(all: seq<Record>, b: Builder)
  {
    && b.committed <= |all| && b.pos <= |all|
    && !(b.tmp && b.insertPending)
    && (b.tmp || b.insertPending ==> b.pos > 0)
  }

  function NextQuery(sch: Schema, all: seq<Record>, b: Builder): (r: (Builder, Statement))
    requires BuilderOk(all, b)
    ensures BuilderOk(all, r.0)
  {
    if b.insertPending then (b.(insertPending := false), InsertIfAbsent(all[b.pos - 1]))
    else if b.tmp then (b.(tmp := false, insertPending := true), Update(all[b.pos - 1]))
    else
      var g := Gather(sch, all, b.inserted, b.pos, 0);
      var read := b.(inserted := g.inserted, pos := g.pos);
      match g.stop
      case EndOfInput => (read, NoMore)
      case BatchFull => (read, BulkInsert(all[b.pos..g.pos]))
      case Duplicate =>
        if g.pos == b.pos + 1 then (read.(insertPending := true), Update(all[b.pos]))
        else (read.(tmp := true), BulkInsert(all[b.pos..g.pos - 1]))
  }

  function Commit(all: seq<Record>, b: Builder): (r: Builder)
    requires BuilderOk(all, b)
    ensures BuilderOk(all, r)
  {
    if b.insertPending then b
    else if b.tmp then b.(committed := b.pos - 1)
    else b.(committed := b.pos)
  }

  /** The constructor over an existing shared segment. */
  function Recover(b: Builder): Builder
  {
    Builder(b.inserted, b.committed, b.committed, false, false)
  }

  // ---------------------------------------------------------------- the whole system

  /** Rejected: the server refused a statement. Derailed: the stored position is not that of any record. */
  datatype Phase = Idle | Issued(q: Statement) | Executed | Stopped | Rejected | Derailed

  /** applied says how many records the table stands for; no step depends on it. */
  datatype System = System(table: Rows, builder: Builder, phase: Phase, applied: nat)

  /**
   One move of the caller, or a crash: between two moves, inside next_query after some
   insertions, or inside commit between its two stores.  The last one leaves the new
   file with the old offset; landing is the record that starts there, if one does.
   */
  datatype Event =
    | Ask | Run | Acknowledge
    | Crash | CrashWhileAsking(steps: nat) | CrashWhileCommitting(landing: Option<nat>)

  const INITIAL: System := System(map[], Builder({}, 0, 0, false, false), Idle, 0)

  function Advance(sch: Schema, s: System, q: Statement): nat
  {
    match q
    case NoMore => s.applied
    case BulkInsert(records) => s.applied + |records|
    case Update(r) => if s.builder.pos == s.applied + 1 && sch.KeyOf(r) in s.table then s.applied + 1 else s.applied
    case InsertIfAbsent(r) => if s.builder.pos == s.applied + 1 then s.applied + 1 else s.applied
  }

  /** The hashes inserted by the first k turns of the gathering loop. */
  function InsertedAfter(sch: Schema, all: seq<Record>, inserted: set<nat>, pos: nat, k: nat): set<nat>
    decreases k
  {
    if k == 0 || pos >= |all| || sch.HashOf(all[pos]) in inserted then inserted
    else InsertedAfter(sch, all, inserted + {sch.HashOf(all[pos])}, pos + 1, k - 1)
  }

  function Step(sch: Schema, all: seq<Record>, s: System, e: Event): (r: System)
    requires BuilderOk(all, s.builder)
    ensures BuilderOk(all, r.builder)
    ensures r.phase == Derailed ==> s.phase == Derailed || e.CrashWhileCommitting?
  {
    if s.phase == Derailed then s else
    match e
    case Ask =>
      if s.phase != Idle then s
      else
        var (b, q) := NextQuery(sch, all, s.builder);
        s.(builder := b, phase := if q == NoMore then Stopped else Issued(q))
    case Run =>
      if !s.phase.Issued? then s
      else
        (match Execute(sch, s.table, s.phase.q)
         case None => s.(phase := Rejected)
         case Some(t) => s.(table := t, phase := Executed, applied := Advance(sch, s, s.phase.q)))
    case Acknowledge =>
      if s.phase != Executed then s
      else s.(builder := Commit(all, s.builder), phase := Idle)
    case Crash => s.(builder := Recover(s.builder), phase := Idle)
    case CrashWhileAsking(k) =>
      if s.phase != Idle || s.builder.tmp || s.builder.insertPending then
        s.(builder := Recover(s.builder), phase := Idle)
      else
        var b := s.builder;
        s.(builder := Recover(b.(inserted := InsertedAfter(sch, all, b.inserted, b.pos, k))), phase := Idle)
    case CrashWhileCommitting(landing) =>
      if !Storing(s) then s.(builder := Recover(s.builder), phase := Idle)
      else if landing.Some? && landing.value <= |all| then
        s.(builder := Recover(s.builder.(committed := landing.value)), phase := Idle)
      else s.(phase := Derailed)
  }

  /** The next commit stores a position; with a statement still owed it stores nothing. */
  predicate Storing(s: System)
  {
    s.phase == Executed && !s.builder.insertPending
  }

  function RunEvents(sch: Schema, all: seq<Record>, s: System, events: seq<Event>): (r: System)
    requires BuilderOk(all, s.builder)
    ensures BuilderOk(all, r.builder)
  {
    if events == [] then s else Step(sch, all, RunEvents(sch, all, s, events[..|events| - 1]), events[|events| - 1])
  }

  /** The position the builder still has to deliver from. */
  function Owed(b: Builder): nat
    requires b.tmp || b.insertPending ==> b.pos > 0
  {
    if b.tmp || b.insertPending then b.pos - 1 else b.pos
  }

  /** The caller's loop: ask, execute, commit, until there is nothing more. */
  function RunToStop(sch: Schema, all: seq<Record>, s: System): (r: System)
    requires BuilderOk(all, s.builder) && s.phase == Idle
    ensures BuilderOk(all, r.builder) && r.phase != Derailed
    decreases |all| - s.builder.pos, if s.builder.tmp then 2 else if s.builder.insertPending then 1 else 0
  {
    var asked := Step(sch, all, s, Ask);
    var ran := Step(sch, all, asked, Run);
    var done := Step(sch, all, ran, Acknowledge);
    if done.phase != Idle then done else RunToStop(sch, all, done)
  }
}
