/**
 * Any number of transactions interleaved under snapshot isolation (PostgreSQL documentation, section
 * 13.2.2). A transaction reads the database as it was when it began. It locks its ticket row, which
 * fails when another transaction committed a write to that row in the meantime; the caller's retry is
 * a new transaction. Unique indexes are checked against the database as it is at commit.
 */
module TicketConcurrency {
  import opened Prelude
  import opened TicketContract
  import opened TicketRows
  import opened TicketInvariants

  /** `ticketWrite`: whether event writers make the value-preserving write on the ticket row. */
  datatype Config = Config(limit: nat, ticketWrite: bool)

  datatype Txn = Txn(request: Request, draw: Draw, snapshot: Db, stamps: map<TicketId, nat>)

  datatype Entry = Entry(request: Request, draw: Draw, outcome: Outcome)

  /** `stamps` counts the committed writes to each ticket row; `log` lists what committed, in commit order. */
  datatype System = System(db: Db, stamps: map<TicketId, nat>, running: map<nat, Txn>, log: seq<Entry>)

  datatype Move = Begin(txn: nat, request: Request, draw: Draw) | Finish(txn: nat) | Abandon(txn: nat)

  datatype Verdict = Committed(outcome: Outcome) | SerializationFailure | UniqueIndexViolation

  function Stamp(stamps: map<TicketId, nat>, id: TicketId): nat
  {
    if id in stamps then stamps[id] else 0
  }

  function Initial(db: Db): System
  {
    System(db, map[], map[], [])
  }

  ghost function Judge(config: Config, sys: System, t: Txn): Verdict
  {
    var id := Target(t.request);
    var planned := Plan(t.snapshot, config.limit, t.request, t.draw);
    if Stamp(sys.stamps, id) != Stamp(t.stamps, id) then SerializationFailure
    else if planned.effect.Nothing? then Committed(planned.outcome)
    else if id in sys.db.books && IndexesAccept(sys.db, t.request, planned.effect.change) then Committed(planned.outcome)
    else UniqueIndexViolation
  }

  ghost function Next(config: Config, sys: System, move: Move): System
  {
    match move
    case Begin(i, request, draw) =>
      if i in sys.running then sys else sys.(running := sys.running[i := Txn(request, draw, sys.db, sys.stamps)])
    case Abandon(i) =>
      sys.(running := sys.running - {i})
    case Finish(i) =>
      if i !in sys.running then sys
      else
        var t := sys.running[i];
        var closed := sys.(running := sys.running - {i});
        if Judge(config, sys, t).Committed? then Committing(config, closed, t) else closed
  }

  /** Apply the planned writes to the current database and stamp the ticket row that was written. */
  ghost function Committing(config: Config, sys: System, t: Txn): System
  {
    var planned := Plan(t.snapshot, config.limit, t.request, t.draw);
    var id := Target(t.request);
    var written := planned.effect.Write? && id in sys.db.books;
    sys.(
      db := if written then Apply(sys.db, t.request, planned.effect.change) else sys.db,
      stamps := if written && (t.request.Transition? || config.ticketWrite)
                then sys.stamps[id := Stamp(sys.stamps, id) + 1] else sys.stamps,
      log := sys.log + [Entry(t.request, t.draw, planned.outcome)])
  }

  ghost function Run(config: Config, db: Db, moves: seq<Move>): System
  {
    if moves == [] then Initial(db)
    else Next(config, Run(config, db, moves[..|moves| - 1]), moves[|moves| - 1])
  }

  // ---------- the serial ledger ----------

  ghost function Serial(db: Db, limit: nat, log: seq<Entry>): Db
  {
    if log == [] then db
    else
      var last := log[|log| - 1];
      Execute(Serial(db, limit, log[..|log| - 1]), limit, last.request, last.draw).0
  }

  /** The same answer; two refusals may differ in the reason they give. */
  ghost predicate Agree(a: Outcome, b: Outcome)
  {
    a == b || (a.Refused? && b.Refused?)
  }

  ghost predicate Explains(db: Db, limit: nat, log: seq<Entry>)
  {
    forall i :: 0 <= i < |log| ==> AgreesAt(db, limit, log, i)
  }

  ghost predicate AgreesAt(db: Db, limit: nat, log: seq<Entry>, i: nat)
    requires i < |log|
  {
    Agree(log[i].outcome, Execute(Serial(db, limit, log[..i]), limit, log[i].request, log[i].draw).1)
  }

  // ---------- snapshots stay true where the ticket row was not written ----------

  ghost predicate TrueFor(db: Db, snapshot: Db, id: TicketId)
  {
    && (id in db.books <==> id in snapshot.books)
    && (id in db.books ==> db.books[id] == snapshot.books[id])
    && (forall k :: k in db.receipts && db.receipts[k].ticket == id ==> k in snapshot.receipts)
  }

  ghost predicate SnapshotOk(start: map<TicketId, int>, limit: nat, sys: System, t: Txn)
  {
    && DbOk(start, limit, t.snapshot)
    && t.snapshot.runs == sys.db.runs
    && (forall k :: k in t.snapshot.receipts ==> k in sys.db.receipts && sys.db.receipts[k] == t.snapshot.receipts[k])
    && (forall id :: Stamp(t.stamps, id) <= Stamp(sys.stamps, id))
    && (forall id :: Stamp(t.stamps, id) == Stamp(sys.stamps, id) ==> TrueFor(sys.db, t.snapshot, id))
  }

  ghost predicate SystemOk(start: map<TicketId, int>, limit: nat, db: Db, sys: System)
  {
    && DbOk(start, limit, sys.db)
    && sys.db == Serial(db, limit, sys.log)
    && Explains(db, limit, sys.log)
    && SnapshotsOk(start, limit, sys)
  }

  /** A key that another ticket's command took after the snapshot. */
  ghost predicate KeyTakenElsewhere(db: Db, snapshot: Db, request: Request)
  {
    && request.Transition? && request.command.key !in snapshot.receipts
    && request.command.key in db.receipts && db.receipts[request.command.key].ticket != request.command.ticket
  }

  /** A true snapshot leads to the plan that the current database leads to. */
  lemma SamePlan(limit: nat, db: Db, snapshot: Db, request: Request, draw: Draw)
    requires TrueFor(db, snapshot, Target(request)) && snapshot.runs == db.runs
    requires forall k :: k in snapshot.receipts ==> k in db.receipts && db.receipts[k] == snapshot.receipts[k]
    ensures Plan(snapshot, limit, request, draw) == Plan(db, limit, request, draw) || KeyTakenElsewhere(db, snapshot, request)
  {
    match request {
      case Transition(c) =>
      case Append(_, _, _, _, _, _) => assert PlanAppend(snapshot, limit, request, draw) == PlanAppend(db, limit, request, draw);
      case Upsert(_, _, _, _, _, _, _) => assert PlanUpsert(snapshot, limit, request, draw) == PlanUpsert(db, limit, request, draw);
    }
  }

  lemma TakenKeyRefuses(limit: nat, db: Db, snapshot: Db, request: Request, draw: Draw)
    requires KeyTakenElsewhere(db, snapshot, request)
    requires TrueFor(db, snapshot, Target(request))
    ensures Plan(db, limit, request, draw).effect.Nothing? && Plan(db, limit, request, draw).outcome.Refused?
    ensures Plan(snapshot, limit, request, draw).effect.Nothing? ==> Plan(snapshot, limit, request, draw).outcome.Refused?
    ensures Plan(snapshot, limit, request, draw).effect.Write? ==> Plan(snapshot, limit, request, draw).effect.change.receipt.Some?
  {
  }

  /** What commits, commits as if the request had run alone at that moment. */
  lemma CommitIsSerial(start: map<TicketId, int>, limit: nat, sys: System, t: Txn)
    requires SnapshotOk(start, limit, sys, t)
    requires Judge(Config(limit, true), sys, t).Committed?
    ensures Committing(Config(limit, true), sys, t).db == Execute(sys.db, limit, t.request, t.draw).0
    ensures Agree(Plan(t.snapshot, limit, t.request, t.draw).outcome, Execute(sys.db, limit, t.request, t.draw).1)
  {
    SamePlan(limit, sys.db, t.snapshot, t.request, t.draw);
    if KeyTakenElsewhere(sys.db, t.snapshot, t.request) {
      TakenKeyRefuses(limit, sys.db, t.snapshot, t.request, t.draw);
    }
  }

  lemma {:induction false} SerialPrefix(db: Db, limit: nat, log: seq<Entry>, entry: Entry)
    requires Explains(db, limit, log)
    requires Agree(entry.outcome, Execute(Serial(db, limit, log), limit, entry.request, entry.draw).1)
    ensures Serial(db, limit, log + [entry]) == Execute(Serial(db, limit, log), limit, entry.request, entry.draw).0
    ensures Explains(db, limit, log + [entry])
  {
    assert (log + [entry])[..|log|] == log;
    forall i | 0 <= i < |log + [entry]| ensures AgreesAt(db, limit, log + [entry], i) {
      if i < |log| {
        assert (log + [entry])[..i] == log[..i];
        assert AgreesAt(db, limit, log, i);
      }
    }
  }

  /** A change of database that concerns one ticket: its book, and receipts of its own. */
  ghost predicate LocalTo(before: Db, after: Db, id: TicketId)
  {
    && after.runs == before.runs
    && (forall other :: other in after.books <==> other in before.books)
    && (forall other :: other in before.books && other != id ==> after.books[other] == before.books[other])
    && (forall k :: k in before.receipts ==> k in after.receipts && after.receipts[k] == before.receipts[k])
    && (forall k :: k in after.receipts && k !in before.receipts ==> after.receipts[k].ticket == id)
  }

  lemma ApplyIsLocal(db: Db, limit: nat, request: Request, draw: Draw, change: Change)
    requires Shaped(limit, db, request, draw, change)
    ensures LocalTo(db, Apply(db, request, change), Target(request))
  {
  }

  lemma ExecuteIsLocal(start: map<TicketId, int>, limit: nat, db: Db, request: Request, draw: Draw)
    requires DbOk(start, limit, db)
    ensures LocalTo(db, Execute(db, limit, request, draw).0, Target(request))
  {
    hide DbOk;
    hide Shaped;
    hide Plan;
    hide IndexesAccept;
    var planned := Plan(db, limit, request, draw);
    if planned.effect.Write? {
      PlanShaped(start, limit, db, request, draw);
      ApplyIsLocal(db, limit, request, draw, planned.effect.change);
    }
  }

  /** The system after a commit for ticket `id`: when the database changed, the ticket row was stamped. */
  ghost predicate Advances(sys: System, after: System, id: TicketId)
  {
    && LocalTo(sys.db, after.db, id)
    && (forall other :: Stamp(sys.stamps, other) <= Stamp(after.stamps, other))
    && (after.db != sys.db ==> Stamp(sys.stamps, id) < Stamp(after.stamps, id))
  }

  lemma AdvanceKeepsSnapshot(start: map<TicketId, int>, limit: nat, sys: System, after: System, id: TicketId, t: Txn)
    requires SnapshotOk(start, limit, sys, t) && Advances(sys, after, id)
    ensures SnapshotOk(start, limit, after, t)
  {
    forall other | Stamp(t.stamps, other) == Stamp(after.stamps, other) ensures TrueFor(after.db, t.snapshot, other) {
      assert Stamp(t.stamps, other) <= Stamp(sys.stamps, other) <= Stamp(after.stamps, other);
      assert TrueFor(sys.db, t.snapshot, other);
    }
  }

  lemma CommittingStamps(config: Config, sys: System, t: Txn)
    requires config.ticketWrite
    ensures
      var after := Committing(config, sys, t);
      && (forall other :: Stamp(sys.stamps, other) <= Stamp(after.stamps, other))
      && (after.db != sys.db ==> Stamp(sys.stamps, Target(t.request)) < Stamp(after.stamps, Target(t.request)))
  {
  }

  lemma CommittingAdvances(start: map<TicketId, int>, limit: nat, sys: System, t: Txn)
    requires SnapshotOk(start, limit, sys, t) && DbOk(start, limit, sys.db)
    requires Judge(Config(limit, true), sys, t).Committed?
    ensures Advances(sys, Committing(Config(limit, true), sys, t), Target(t.request))
  {
    CommittingStamps(Config(limit, true), sys, t);
    assert LocalTo(sys.db, Committing(Config(limit, true), sys, t).db, Target(t.request)) by {
      CommitIsSerial(start, limit, sys, t);
      ExecuteIsLocal(start, limit, sys.db, t.request, t.draw);
    }
  }

  lemma CommittingKeepsLedger(start: map<TicketId, int>, limit: nat, db: Db, sys: System, t: Txn)
    requires SnapshotOk(start, limit, sys, t) && DbOk(start, limit, sys.db)
    requires sys.db == Serial(db, limit, sys.log) && Explains(db, limit, sys.log)
    requires Judge(Config(limit, true), sys, t).Committed?
    ensures
      var after := Committing(Config(limit, true), sys, t);
      DbOk(start, limit, after.db) && after.db == Serial(db, limit, after.log) && Explains(db, limit, after.log)
  {
    CommitIsSerial(start, limit, sys, t);
    ExecuteKeepsAll(start, limit, sys.db, t.request, t.draw);
    SerialPrefix(db, limit, sys.log, Entry(t.request, t.draw, Plan(t.snapshot, limit, t.request, t.draw).outcome));
  }

  ghost predicate SnapshotsOk(start: map<TicketId, int>, limit: nat, sys: System)
  {
    forall i :: i in sys.running ==> SnapshotOk(start, limit, sys, sys.running[i])
  }

  lemma FewerSnapshots(start: map<TicketId, int>, limit: nat, sys: System, i: nat)
    requires SnapshotsOk(start, limit, sys)
    ensures SnapshotsOk(start, limit, sys.(running := sys.running - {i}))
  {
    forall j | j in sys.running && j != i
      ensures SnapshotOk(start, limit, sys.(running := sys.running - {i}), sys.running[j])
    {
      assert SnapshotOk(start, limit, sys, sys.running[j]);
    }
  }

  lemma AdvanceKeepsSnapshots(start: map<TicketId, int>, limit: nat, sys: System, after: System, id: TicketId)
    requires SnapshotsOk(start, limit, sys) && Advances(sys, after, id) && after.running == sys.running
    ensures SnapshotsOk(start, limit, after)
  {
    forall j | j in after.running ensures SnapshotOk(start, limit, after, after.running[j]) {
      AdvanceKeepsSnapshot(start, limit, sys, after, id, sys.running[j]);
    }
  }

  lemma BeginKeepsSnapshots(start: map<TicketId, int>, limit: nat, sys: System, i: nat, request: Request, draw: Draw)
    requires SnapshotsOk(start, limit, sys) && DbOk(start, limit, sys.db)
    ensures SnapshotsOk(start, limit, sys.(running := sys.running[i := Txn(request, draw, sys.db, sys.stamps)]))
  {
    var after := sys.(running := sys.running[i := Txn(request, draw, sys.db, sys.stamps)]);
    forall j | j in after.running ensures SnapshotOk(start, limit, after, after.running[j]) {
      if j != i { assert SnapshotOk(start, limit, sys, sys.running[j]); }
    }
  }

  lemma FinishKeepsSystem(start: map<TicketId, int>, limit: nat, db: Db, sys: System, i: nat)
    requires SystemOk(start, limit, db, sys) && i in sys.running
    requires Judge(Config(limit, true), sys, sys.running[i]).Committed?
    ensures SystemOk(start, limit, db, Committing(Config(limit, true), sys.(running := sys.running - {i}), sys.running[i]))
  {
    var t := sys.running[i];
    var closed := sys.(running := sys.running - {i});
    assert SnapshotOk(start, limit, sys, t);
    FewerSnapshots(start, limit, sys, i);
    assert SnapshotOk(start, limit, closed, t);
    CommittingAdvances(start, limit, closed, t);
    CommittingKeepsLedger(start, limit, db, closed, t);
    AdvanceKeepsSnapshots(start, limit, closed, Committing(Config(limit, true), closed, t), Target(t.request));
  }

  lemma NextKeepsSystem(start: map<TicketId, int>, limit: nat, db: Db, sys: System, move: Move)
    requires SystemOk(start, limit, db, sys)
    ensures SystemOk(start, limit, db, Next(Config(limit, true), sys, move))
  {
    match move {
      case Begin(i, request, draw) => BeginKeepsSnapshots(start, limit, sys, i, request, draw);
      case Abandon(i) => FewerSnapshots(start, limit, sys, i);
      case Finish(i) =>
        FewerSnapshots(start, limit, sys, i);
        if i in sys.running && Judge(Config(limit, true), sys, sys.running[i]).Committed? {
          FinishKeepsSystem(start, limit, db, sys, i);
        }
    }
  }

  lemma {:induction false} RunKeepsSystem(limit: nat, db: Db, moves: seq<Move>)
    requires Untouched(limit, db)
    ensures SystemOk(Versions(db), limit, db, Run(Config(limit, true), db, moves))
  {
    if moves == [] {
      UntouchedIsOk(limit, db);
    } else {
      RunKeepsSystem(limit, db, moves[..|moves| - 1]);
      NextKeepsSystem(Versions(db), limit, db, Run(Config(limit, true), db, moves[..|moves| - 1]), moves[|moves| - 1]);
    }
  }
}
