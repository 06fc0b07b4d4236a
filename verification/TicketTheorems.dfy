/** What holds of every interleaving of lifecycle commands and event writers. */
module TicketTheorems {
  import opened Prelude
  import opened TicketContract
  import opened TicketRows
  import opened TicketInvariants
  import opened TicketConcurrency
  import opened TicketMeaning

  // ---------- every run is a serial run ----------

  /** Any interleaving leaves the tables of the serial run of what committed, and gave the same answers. */
  lemma SnapshotRunIsSerial(limit: nat, db: Db, moves: seq<Move>)
    requires Untouched(limit, db)
    ensures
      var sys := Run(Config(limit, true), db, moves);
      sys.db == Serial(db, limit, sys.log) && Explains(db, limit, sys.log)
  {
    RunKeepsSystem(limit, db, moves);
  }

  /** The committed numbers of a ticket are exactly 1..n: each number in that range is on exactly one row. */
  lemma SequenceNumbersAreGapless(limit: nat, db: Db, moves: seq<Move>, id: TicketId, n: int)
    requires Untouched(limit, db) && id in db.books
    ensures
      var sys := Run(Config(limit, true), db, moves);
      && id in sys.db.books
      && var events := sys.db.books[id].events;
         && (1 <= n <= |events| <==> exists i :: 0 <= i < |events| && events[i].sequence == n)
         && (forall i, j :: 0 <= i < |events| && 0 <= j < |events| && events[i].sequence == events[j].sequence ==> i == j)
  {
    RunKeepsSystem(limit, db, moves);
    var sys := Run(Config(limit, true), db, moves);
    assert BookOk(Versions(db)[id], limit, sys.db, id);
    NumberedHasEach(sys.db.books[id].events, n);
    hide Run, Untouched, SystemOk, DbOk, BookOk, LogOk;
  }

  lemma NumberedHasEach(events: seq<Event>, n: int)
    requires Numbered(events)
    ensures 1 <= n <= |events| <==> exists i :: 0 <= i < |events| && events[i].sequence == n
    ensures forall i, j :: 0 <= i < |events| && 0 <= j < |events| && events[i].sequence == events[j].sequence ==> i == j
  {
    if 1 <= n <= |events| {
      assert events[n - 1].sequence == n;
    }
  }

  /** With the ticket write, a transaction that is not told to retry never meets a per-ticket unique index. */
  lemma TicketIndexesNeverFire(limit: nat, db: Db, moves: seq<Move>, i: nat)
    requires Untouched(limit, db)
    requires i in Run(Config(limit, true), db, moves).running
    ensures
      var sys := Run(Config(limit, true), db, moves);
      var t := sys.running[i];
      var planned := Plan(t.snapshot, limit, t.request, t.draw);
      Judge(Config(limit, true), sys, t) != SerializationFailure && planned.effect.Write? ==>
        Target(t.request) in sys.db.books && TicketIndexesAccept(sys.db.books[Target(t.request)], planned.effect.change)
  {
    RunKeepsSystem(limit, db, moves);
    var sys := Run(Config(limit, true), db, moves);
    var t := sys.running[i];
    assert SnapshotOk(Versions(db), limit, sys, t);
    if Judge(Config(limit, true), sys, t) != SerializationFailure && Plan(t.snapshot, limit, t.request, t.draw).effect.Write? {
      PlanFits(Versions(db), limit, t.snapshot, t.request, t.draw);
      assert TrueFor(sys.db, t.snapshot, Target(t.request));
    }
  }

  lemma PlanFits(start: map<TicketId, int>, limit: nat, db: Db, request: Request, draw: Draw)
    requires DbOk(start, limit, db) && Plan(db, limit, request, draw).effect.Write?
    ensures Target(request) in db.books
    ensures TicketIndexesAccept(db.books[Target(request)], Plan(db, limit, request, draw).effect.change)
  {
    PlanShaped(start, limit, db, request, draw);
    assert BookOk(start[Target(request)], limit, db, Target(request));
  }

  // ---------- why the ticket write is needed ----------

  function LoneTicket(version: int): Db
  {
    Db(map["t" := Book(Ticket("owner", Waiting, None, version), [], None, [])], map[], map[])
  }

  function Trace(): Request
  {
    Append("t", None, "tool.call", "", Waiting, None)
  }

  /** Two writers that begin together, then commit one after the other. */
  function Overlap(): seq<Move>
  {
    [Begin(0, Trace(), Draw("a", 0)), Begin(1, Trace(), Draw("b", 0)), Finish(0)]
  }

  ghost function SecondWriter(config: Config): Verdict
  {
    var sys := Run(config, LoneTicket(1), Overlap());
    if 1 in sys.running then Judge(config, sys, sys.running[1]) else SerializationFailure
  }

  /**
   * Without the value-preserving write the second writer keeps its stale snapshot, picks the number the
   * first one took, and dies on the unique index; with it, the second writer is told to retry.
   */
  lemma TicketWriteIsNeeded()
    ensures Untouched(10, LoneTicket(1))
    ensures SecondWriter(Config(10, false)) == UniqueIndexViolation
    ensures SecondWriter(Config(10, true)) == SerializationFailure
  {
    EmptyLogOk();
    OverlapRun(false);
    OverlapRun(true);
  }

  lemma EmptyLogOk()
    ensures LogOk(10, [])
  {
  }

  function TraceRow(id: EventId): Event
  {
    Event(id, None, 1, "tool.call", RunTrace, Text(""), Waiting, None, None, 0)
  }

  lemma TracePlan(id: EventId)
    ensures Plan(LoneTicket(1), 10, Trace(), Draw(id, 0)) ==
      Planned(Write(Change(LoneTicket(1).books["t"].ticket, Insert(TraceRow(id)), Keep, None, None)), Wrote(TraceRow(id)))
  {
    assert "tool.call"[1] != "task."[1];
  }

  lemma OverlapRun(ticketWrite: bool)
    ensures SecondWriter(Config(10, ticketWrite)) == if ticketWrite then SerializationFailure else UniqueIndexViolation
  {
    var config := Config(10, ticketWrite);
    var db := LoneTicket(1);
    var moves := Overlap();
    TracePlan("a");
    TracePlan("b");
    assert moves[..3] == moves && moves[..3][..2] == moves[..2] && moves[..2][..1] == moves[..1] && moves[..1][..0] == [];
    var begun := System(db, map[], map[0 := Txn(Trace(), Draw("a", 0), db, map[])], []);
    assert Run(config, db, moves[..1]) == begun;
    var both := begun.(running := begun.running[1 := Txn(Trace(), Draw("b", 0), db, map[])]);
    assert Run(config, db, moves[..2]) == Next(config, begun, moves[1]) == both;
    var change := Change(db.books["t"].ticket, Insert(TraceRow("a")), Keep, None, None);
    assert IndexesAccept(db, Trace(), change);
    assert Judge(config, both, both.running[0]).Committed?;
    var sys := Run(config, db, moves);
    assert sys == Next(config, both, Finish(0));
    assert 1 in sys.running && sys.running[1] == both.running[1];
    assert sys.db.books["t"].events == [TraceRow("a")];
    assert sys.db.books["t"].events[0].sequence == 1;
  }

  // ---------- one winner per version ----------

  /** Of two commands with distinct keys and the same expected version on one ticket, at most one commits. */
  lemma AtMostOneCommandPerVersion(limit: nat, db: Db, moves: seq<Move>, i: nat, j: nat)
    requires Untouched(limit, db)
    requires
      var log := Run(Config(limit, true), db, moves).log;
      && i < j < |log| && log[i].request.Transition? && log[j].request.Transition?
      && log[i].request.command.ticket == log[j].request.command.ticket
      && log[i].request.command.expectedVersion == log[j].request.command.expectedVersion
      && log[i].request.command.key != log[j].request.command.key
    ensures
      var log := Run(Config(limit, true), db, moves).log;
      !(log[i].outcome.Done? && log[j].outcome.Done?)
  {
    RunKeepsSystem(limit, db, moves);
    var log := Run(Config(limit, true), db, moves).log;
    var final := Serial(db, limit, log);
    if log[i].outcome.Done? && log[j].outcome.Done? {
      DoneLeavesReceipt(limit, db, log, i);
      DoneLeavesReceipt(limit, db, log, j);
      SerialKeepsAll(limit, db, log, 0);
      VersionsDiffer(Versions(db), limit, final, log[i].request.command.key, log[j].request.command.key);
    }
  }

  lemma VersionsDiffer(start: map<TicketId, int>, limit: nat, db: Db, k: string, l: string)
    requires DbOk(start, limit, db) && k in db.receipts && l in db.receipts && k != l
    requires db.receipts[k].ticket == db.receipts[l].ticket
    ensures db.receipts[k].version != db.receipts[l].version
  {
    var id := db.receipts[k].ticket;
    assert BookOk(start[id], limit, db, id);
    assert k in KeysOf(db, id) && l in KeysOf(db, id);
  }

  lemma {:induction false} SerialKeepsAll(limit: nat, db: Db, log: seq<Entry>, k: nat)
    requires Untouched(limit, db) && k <= |log|
    ensures DbOk(Versions(db), limit, Serial(db, limit, log))
    ensures Step(Serial(db, limit, log[..k]), Serial(db, limit, log))
  {
    if log == [] {
      UntouchedIsOk(limit, db);
      StepReflexive(db);
    } else if k == |log| {
      assert log[..k] == log;
      SerialKeepsAll(limit, db, log[..k - 1], k - 1);
      ExecuteKeepsAll(Versions(db), limit, Serial(db, limit, log[..k - 1]), log[k - 1].request, log[k - 1].draw);
      StepReflexive(Serial(db, limit, log));
    } else {
      var n := |log| - 1;
      SerialKeepsAll(limit, db, log[..n], k);
      assert log[..n][..k] == log[..k];
      ExecuteKeepsAll(Versions(db), limit, Serial(db, limit, log[..n]), log[n].request, log[n].draw);
      StepTransitive(Serial(db, limit, log[..k]), Serial(db, limit, log[..n]), Serial(db, limit, log));
    }
  }

  lemma ExtendsTransitive(a: seq<Event>, b: seq<Event>, c: seq<Event>)
    requires Extends(a, b) && Extends(b, c)
    ensures Extends(a, c)
  {
    forall i | 0 <= i < |a| ensures RowKept(a[i], c[i]) {
      assert RowKept(a[i], b[i]) && RowKept(b[i], c[i]);
    }
  }

  lemma StepTransitive(a: Db, b: Db, c: Db)
    requires Step(a, b) && Step(b, c)
    ensures Step(a, c)
  {
    forall id | id in a.books ensures BookStep(a.books[id], c.books[id]) {
      assert BookStep(a.books[id], b.books[id]) && BookStep(b.books[id], c.books[id]);
      ExtendsTransitive(a.books[id].events, b.books[id].events, c.books[id].events);
    }
  }

  /** The receipt of a committed command: its key, ticket and action, and the version after the expected one. */
  ghost predicate ReceiptFor(db: Db, c: Command, r: Receipt)
  {
    && c.key in db.receipts && db.receipts[c.key] == r
    && r.ticket == c.ticket && r.action == c.action && r.version == c.expectedVersion + 1
  }

  /** A committed command's receipt is stored at once and never changed. */
  lemma DoneLeavesReceipt(limit: nat, db: Db, log: seq<Entry>, i: nat)
    requires Untouched(limit, db) && i < |log| && log[i].request.Transition?
    requires AgreesAt(db, limit, log, i) && log[i].outcome.Done?
    ensures ReceiptFor(Serial(db, limit, log), log[i].request.command, log[i].outcome.receipt)
  {
    CommittedCommand(limit, Serial(db, limit, log[..i]), log[i].request.command, log[i].draw);
    assert log[..i + 1][..i] == log[..i];
    SerialKeepsReceipts(limit, db, log, i + 1);
  }

  lemma SerialKeepsReceipts(limit: nat, db: Db, log: seq<Entry>, k: nat)
    requires Untouched(limit, db) && k <= |log|
    ensures forall key :: key in Serial(db, limit, log[..k]).receipts ==>
              key in Serial(db, limit, log).receipts
              && Serial(db, limit, log).receipts[key] == Serial(db, limit, log[..k]).receipts[key]
  {
    SerialKeepsAll(limit, db, log, k);
  }

  lemma CommittedCommand(limit: nat, db: Db, c: Command, draw: Draw)
    requires Execute(db, limit, Transition(c), draw).1.Done?
    ensures ReceiptFor(Execute(db, limit, Transition(c), draw).0, c, Execute(db, limit, Transition(c), draw).1.receipt)
    ensures c.ticket in db.books && Validate(c).None?
  {
  }

  // ---------- the life of a run ----------

  /**
   * From any point of a run to any later point: no row is lost or renumbered, lifecycle rows are fixed,
   * history and receipts only grow, and a cancelled or failed ticket stays as it is.
   */
  lemma {:induction false} RunsOnlyAdvance(limit: nat, db: Db, moves: seq<Move>, k: nat)
    requires Untouched(limit, db) && k <= |moves|
    ensures Step(Run(Config(limit, true), db, moves[..k]).db, Run(Config(limit, true), db, moves).db)
  {
    if k == |moves| {
      assert moves[..k] == moves;
      StepReflexive(Run(Config(limit, true), db, moves).db);
    } else {
      var n := |moves| - 1;
      assert moves[..n][..k] == moves[..k];
      RunsOnlyAdvance(limit, db, moves[..n], k);
      RunKeepsSystem(limit, db, moves[..n]);
      MoveSteps(Versions(db), limit, db, Run(Config(limit, true), db, moves[..n]), moves[n]);
      StepTransitive(Run(Config(limit, true), db, moves[..k]).db, Run(Config(limit, true), db, moves[..n]).db,
                     Run(Config(limit, true), db, moves).db);
    }
  }

  lemma MoveSteps(start: map<TicketId, int>, limit: nat, db: Db, sys: System, move: Move)
    requires SystemOk(start, limit, db, sys)
    ensures Step(sys.db, Next(Config(limit, true), sys, move).db)
  {
    StepReflexive(sys.db);
    if move.Finish? && move.txn in sys.running && Judge(Config(limit, true), sys, sys.running[move.txn]).Committed? {
      var t := sys.running[move.txn];
      assert SnapshotOk(start, limit, sys, t);
      CommitIsSerial(start, limit, sys, t);
      ExecuteKeepsAll(start, limit, sys.db, t.request, t.draw);
    }
  }

  /**
   * The ledger of a ticket after any run: an acceptance exists exactly when the ticket is completed,
   * exactly when its completion time is set; it is the newest history row; history versions are 1..k;
   * completions outnumber reopenings by one or not at all; the version counts the receipts; every
   * receipt's lifecycle event is in the log; and each item key is on at most one row, a run trace.
   */
  lemma LedgerAfterAnyRun(limit: nat, db: Db, moves: seq<Move>, id: TicketId)
    requires Untouched(limit, db) && id in db.books
    ensures
      var after := Run(Config(limit, true), db, moves).db;
      && id in after.books
      && var book := after.books[id];
         && (book.acceptance.Some? <==> book.ticket.status == Completed)
         && (book.ticket.completedAt.Some? <==> book.ticket.status == Completed)
         && (forall i :: 0 <= i < |book.history| ==> book.history[i].version == i + 1)
         && (book.acceptance.Some? ==> book.history != [] && book.history[|book.history| - 1].acceptance == book.acceptance.value)
         && |KeysOfAction(after, id, Complete)| - |KeysOfAction(after, id, Reopen)| == (if book.ticket.status == Completed then 1 else 0)
         && book.ticket.version == db.books[id].ticket.version + |KeysOf(after, id)|
         && (forall k :: k in KeysOf(after, id) ==> EventOf(book.events, after.receipts[k]))
         && TraceCount(book.events) <= limit && KeyedTraces(book.events)
  {
    RunKeepsSystem(limit, db, moves);
    assert BookOk(Versions(db)[id], limit, Run(Config(limit, true), db, moves).db, id);
  }

  // ---------- progress ----------

  /** At any point of a run, a transaction that begins and ends undisturbed commits what it does run alone. */
  lemma AloneItCommits(limit: nat, db: Db, moves: seq<Move>, i: nat, request: Request, draw: Draw)
    requires Untouched(limit, db) && i !in Run(Config(limit, true), db, moves).running
    ensures
      var sys := Run(Config(limit, true), db, moves);
      var after := Run(Config(limit, true), db, moves + [Begin(i, request, draw)] + [Finish(i)]);
      var (alone, outcome) := Execute(sys.db, limit, request, draw);
      && after.db == alone && i !in after.running
      && (outcome != Refused(UniqueViolation) ==> after.log == sys.log + [Entry(request, draw, outcome)])
      && (outcome == Refused(UniqueViolation) ==> after.log == sys.log && alone == sys.db)
  {
    var config := Config(limit, true);
    var sys := Run(config, db, moves);
    var begun := moves + [Begin(i, request, draw)];
    assert begun[..|begun| - 1] == moves;
    assert (begun + [Finish(i)])[..|begun + [Finish(i)]| - 1] == begun;
    RunKeepsSystem(limit, db, moves);
    assert Run(config, db, begun) == Next(config, sys, Begin(i, request, draw));
    assert Run(config, db, begun + [Finish(i)]) == Next(config, Run(config, db, begun), Finish(i));
    FinishesAlone(Versions(db), limit, sys, i, request, draw);
    hide Run, Next, Execute, Untouched;
  }

  lemma FinishesAlone(start: map<TicketId, int>, limit: nat, sys: System, i: nat, request: Request, draw: Draw)
    requires DbOk(start, limit, sys.db) && i !in sys.running
    ensures
      var after := Next(Config(limit, true), Next(Config(limit, true), sys, Begin(i, request, draw)), Finish(i));
      var (alone, outcome) := Execute(sys.db, limit, request, draw);
      && after.db == alone && i !in after.running
      && (outcome != Refused(UniqueViolation) ==> after.log == sys.log + [Entry(request, draw, outcome)])
      && (outcome == Refused(UniqueViolation) ==> after.log == sys.log && alone == sys.db)
  {
    TargetIsThere(start, limit, sys.db, request, draw);
    hide Plan, Apply, IndexesAccept, DbOk;
  }

  lemma TargetIsThere(start: map<TicketId, int>, limit: nat, db: Db, request: Request, draw: Draw)
    requires DbOk(start, limit, db)
    ensures Plan(db, limit, request, draw).effect.Write? ==> Target(request) in db.books
    ensures Plan(db, limit, request, draw).outcome != Refused(UniqueViolation)
  {
    hide EventClassOf, MaxSequence, MaxVersion, AllowedActions, FindKey, ItemKey, DbOk;
  }

  /** A transaction that began after `k` moves is told to retry only if another on its ticket committed since. */
  lemma RetriesHaveARival(config: Config, db: Db, moves: seq<Move>, k: nat, t: Txn)
    requires k <= |moves| && t.stamps == Run(config, db, moves[..k]).stamps
    requires Judge(config, Run(config, db, moves), t) == SerializationFailure
    ensures
      var log := Run(config, db, moves).log;
      exists n :: |Run(config, db, moves[..k]).log| <= n < |log| && Target(log[n].request) == Target(t.request)
  {
    OnlyRivalsStamp(config, db, moves, k, Target(t.request));
  }

  lemma {:induction false} OnlyRivalsStamp(config: Config, db: Db, moves: seq<Move>, k: nat, id: TicketId)
    requires k <= |moves|
    ensures Run(config, db, moves[..k]).log <= Run(config, db, moves).log
    ensures (forall n :: |Run(config, db, moves[..k]).log| <= n < |Run(config, db, moves).log| ==>
               Target(Run(config, db, moves).log[n].request) != id) ==>
            Stamp(Run(config, db, moves).stamps, id) == Stamp(Run(config, db, moves[..k]).stamps, id)
  {
    if k == |moves| {
      assert moves[..k] == moves;
    } else {
      var n := |moves| - 1;
      assert moves[..n][..k] == moves[..k];
      OnlyRivalsStamp(config, db, moves[..n], k, id);
      NextLogs(config, Run(config, db, moves[..n]), moves[n], id);
    }
  }

  lemma NextLogs(config: Config, sys: System, move: Move, id: TicketId)
    ensures
      var next := Next(config, sys, move);
      && sys.log <= next.log && |next.log| <= |sys.log| + 1
      && (|next.log| == |sys.log| || Target(next.log[|sys.log|].request) != id ==> Stamp(next.stamps, id) == Stamp(sys.stamps, id))
  {
    hide Plan, Apply, Judge;
  }

  // ---------- exactly once ----------

  ghost function OutcomeAt(db: Db, limit: nat, log: seq<Entry>, i: nat): Outcome
    requires i < |log|
  {
    Execute(Serial(db, limit, log[..i]), limit, log[i].request, log[i].draw).1
  }

  /** `entry` re-sends the command that committed at `i`: same ticket, action and key; anything else may differ. */
  ghost predicate Resends(db: Db, limit: nat, log: seq<Entry>, i: nat, entry: Entry)
  {
    && i < |log| && log[i].request.Transition? && entry.request.Transition?
    && Validate(entry.request.command).None?
    && log[i].request.command.ticket == entry.request.command.ticket
    && log[i].request.command.action == entry.request.command.action
    && log[i].request.command.key == entry.request.command.key
    && OutcomeAt(db, limit, log, i).Done?
  }

  /** `full` is `once` with any number of re-sent commands inserted after the commands they repeat. */
  ghost predicate WithRedeliveries(db: Db, limit: nat, full: seq<Entry>, once: seq<Entry>)
  {
    if full == [] then once == []
    else
      var before := full[..|full| - 1];
      var last := full[|full| - 1];
      || (once != [] && once[|once| - 1] == last && WithRedeliveries(db, limit, before, once[..|once| - 1]))
      || (WithRedeliveries(db, limit, before, once) && exists i :: Resends(db, limit, before, i, last))
  }

  /** A re-sent command changes nothing and gets the receipt of the first delivery. */
  lemma RedeliveryReplays(limit: nat, db: Db, log: seq<Entry>, i: nat, entry: Entry)
    requires Untouched(limit, db) && Resends(db, limit, log, i, entry)
    ensures Execute(Serial(db, limit, log), limit, entry.request, entry.draw)
         == (Serial(db, limit, log), Replayed(OutcomeAt(db, limit, log, i).receipt))
  {
    var marked := log[i := log[i].(outcome := OutcomeAt(db, limit, log, i))];
    SameSerial(db, limit, log, marked);
    assert marked[..i] == log[..i];
    assert AgreesAt(db, limit, marked, i);
    DoneLeavesReceipt(limit, db, marked, i);
    SerialKeepsAll(limit, db, log, 0);
    Replay(limit, Serial(db, limit, log), log[i].request.command, entry.request.command, entry.draw);
  }

  lemma Replay(limit: nat, db: Db, first: Command, again: Command, draw: Draw)
    requires first.key in db.receipts && ReceiptFor(db, first, db.receipts[first.key]) && first.ticket in db.books
    requires Validate(again).None? && again.key == first.key && again.ticket == first.ticket && again.action == first.action
    ensures Execute(db, limit, Transition(again), draw) == (db, Replayed(db.receipts[first.key]))
  {
  }

  /** The recorded outcomes play no part in the serial run. */
  lemma {:induction false} SameSerial(db: Db, limit: nat, a: seq<Entry>, b: seq<Entry>)
    requires |a| == |b| && forall i :: 0 <= i < |a| ==> a[i].request == b[i].request && a[i].draw == b[i].draw
    ensures Serial(db, limit, a) == Serial(db, limit, b)
  {
    if a != [] {
      SameSerial(db, limit, a[..|a| - 1], b[..|b| - 1]);
    }
  }

  /** Exactly once: the run with re-deliveries leaves the tables of the run without them. */
  lemma {:induction false} ExactlyOnce(limit: nat, db: Db, full: seq<Entry>, once: seq<Entry>)
    requires Untouched(limit, db) && WithRedeliveries(db, limit, full, once)
    ensures Serial(db, limit, full) == Serial(db, limit, once)
  {
    if full != [] {
      var before := full[..|full| - 1];
      var last := full[|full| - 1];
      if once != [] && once[|once| - 1] == last && WithRedeliveries(db, limit, before, once[..|once| - 1]) {
        ExactlyOnce(limit, db, before, once[..|once| - 1]);
      } else {
        ExactlyOnce(limit, db, before, once);
        var i :| Resends(db, limit, before, i, last);
        RedeliveryReplays(limit, db, before, i, last);
      }
    }
  }

  /** So of the whole interleaving: whatever was re-sent in it, the tables are those of what committed without the re-sends. */
  lemma ExactlyOnceInEveryRun(limit: nat, db: Db, moves: seq<Move>, once: seq<Entry>)
    requires Untouched(limit, db) && WithRedeliveries(db, limit, Run(Config(limit, true), db, moves).log, once)
    ensures Run(Config(limit, true), db, moves).db == Serial(db, limit, once)
  {
    SnapshotRunIsSerial(limit, db, moves);
    ExactlyOnce(limit, db, Run(Config(limit, true), db, moves).log, once);
  }

  // ---------- which commands are written ----------

  /** The version a ticket shows. */
  function Shown(ticket: Ticket): int
  {
    if ticket.version == 0 then 1 else ticket.version
  }

  /** A new, well formed and allowed command that names the version shown is written exactly when the stored version is not 0. */
  lemma FreshCommandIsWrittenExactlyWhen(limit: nat, db: Db, c: Command, draw: Draw)
    requires WellFormed(c) && c.ticket in db.books && c.key !in db.receipts && !IdTaken(db, draw.id)
    requires MayLeave(db.books[c.ticket].ticket.status, c.action) && c.expectedVersion == Shown(db.books[c.ticket].ticket)
    ensures Execute(db, limit, Transition(c), draw).1.Done? <==> db.books[c.ticket].ticket.version != 0
    ensures !Execute(db, limit, Transition(c), draw).1.Done? ==> Execute(db, limit, Transition(c), draw) == (db, Refused(VersionConflict))
  {
    hide Execute, MayLeave, AllSpace;
    CommandIsDoneExactlyWhen(limit, db, c, draw);
    if db.books[c.ticket].ticket.version == 0 { CommandIsRefusedWith(limit, db, c, draw); }
  }

  /** With the version stored as 0 no command at all is written. */
  lemma VersionZeroTakesNoCommand(limit: nat, db: Db, c: Command, draw: Draw)
    requires c.ticket in db.books && db.books[c.ticket].ticket.version == 0
    ensures !Execute(db, limit, Transition(c), draw).1.Done? && Execute(db, limit, Transition(c), draw).0 == db
  {
    hide AllowedActions;
  }

  /** Such a ticket: it is pending, and accepting it at the version it shows is refused. */
  lemma PendingAtVersionZero(draw: Draw)
    ensures
      var db := Db(map["t" := Book(Ticket("owner", Pending, None, 0), [], None, [])], map[], map[]);
      var c := Command("t", Accept, 1, "12345678", "actor", Absent, "");
      Shown(db.books["t"].ticket) == 1 && Execute(db, 10, Transition(c), draw) == (db, Refused(VersionConflict))
  {
    var db := Db(map["t" := Book(Ticket("owner", Pending, None, 0), [], None, [])], map[], map[]);
    assert !IdTaken(db, draw.id);
    FreshCommandIsWrittenExactlyWhen(10, db, Command("t", Accept, 1, "12345678", "actor", Absent, ""), draw);
  }

  /** No run leads there: a ticket created at version 1 or above stays above 0. */
  lemma VersionsStayPositive(limit: nat, db: Db, moves: seq<Move>, id: TicketId)
    requires Untouched(limit, db) && id in db.books && db.books[id].ticket.version >= 1
    ensures id in Run(Config(limit, true), db, moves).db.books
    ensures Run(Config(limit, true), db, moves).db.books[id].ticket.version >= 1
  {
    LedgerAfterAnyRun(limit, db, moves, id);
  }

  // ---------- the event log, request by request ----------

  ghost predicate KeyedOnlyAt(events: seq<Event>, key: Option<string>, at: int)
  {
    0 <= at < |events| && forall i :: 0 <= i < |events| ==> (events[i].key == key <==> i == at)
  }

  /** The row an upsert leaves: it alone has the key, and it is dated and numbered as the answer says. */
  ghost predicate UpsertedAt(events: seq<Event>, request: Request, row: Event, at: int)
    requires request.Upsert?
  {
    && KeyedOnlyAt(events, Some(ItemKey(request.itemKey)), at)
    && events[at].sequence == row.sequence && events[at].time == row.time
    && events[at].kind == request.kind && events[at].status == request.status
  }

  /** After an upsert that wrote, its key is on exactly one row, numbered and dated when the key first appeared. */
  lemma UpsertIsKeyed(limit: nat, db: Db, request: Request, draw: Draw)
    requires request.Upsert? && request.ticket in db.books && LogOk(limit, db.books[request.ticket].events)
    requires Execute(db, limit, request, draw).1.Wrote?
    ensures
      var (after, outcome) := Execute(db, limit, request, draw);
      && request.ticket in after.books
      && var before := db.books[request.ticket].events;
         var events := after.books[request.ticket].events;
         match FindKey(before, ItemKey(request.itemKey)) {
           case Some(at) =>
             && |events| == |before| && UpsertedAt(events, request, outcome.event, at)
             && events[at].sequence == before[at].sequence && events[at].time == before[at].time
           case None => |events| == |before| + 1 && UpsertedAt(events, request, outcome.event, |before|)
         }
  {
    var before := db.books[request.ticket].events;
    var key := Some(ItemKey(request.itemKey));
    var planned := PlanUpsert(db, limit, request, draw);
    var change := planned.effect.change;
    var events := ApplyBook(db.books[request.ticket], change).events;
    match FindKey(before, ItemKey(request.itemKey)) {
      case Some(at) =>
        assert KeyedOnlyAt(before, key, at);
        assert forall i :: 0 <= i < |before| ==> events[i].key == before[i].key;
      case None =>
        assert events == before + [change.event.row];
    }
  }

  /** The run a caller names, as the answer shows it. */
  predicate NamesRun(run: Option<string>)
  {
    run.Some? && run.value != ""
  }

  /**
   * The answer of an upsert that wrote is the stored row exactly when the row is new, or had no run before, or the run
   * kept in it is the one the caller names.
   */
  lemma AnswerIsStoredRowExactlyWhen(limit: nat, db: Db, request: Request, draw: Draw)
    requires request.Upsert? && request.ticket in db.books && LogOk(limit, db.books[request.ticket].events)
    requires Execute(db, limit, request, draw).1.Wrote?
    ensures
      var (after, outcome) := Execute(db, limit, request, draw);
      && request.ticket in after.books
      && var before := db.books[request.ticket].events;
         var events := after.books[request.ticket].events;
         match FindKey(before, ItemKey(request.itemKey)) {
           case None => |events| == |before| + 1 && events[|before|] == outcome.event
           case Some(at) =>
             |events| == |before| && (events[at] == outcome.event <==>
               (before[at].run.Some? ==> request.run == before[at].run && NamesRun(request.run)))
         }
  {
    var before := db.books[request.ticket].events;
    var planned := PlanUpsert(db, limit, request, draw);
    var change := planned.effect.change;
    var events := ApplyBook(db.books[request.ticket], change).events;
    match FindKey(before, ItemKey(request.itemKey)) {
      case Some(at) => assert events[at] == Patched(before[at], change.event.patch);
      case None => assert events == before + [change.event.row];
    }
  }

  /** A ticket whose one row, a trace with a key, belongs to a run. */
  function KeptRun(): Db
  {
    Db(map["t" := Book(Ticket("owner", Waiting, None, 1), [TraceRow("a").(run := Some("r"), key := Some("k"))], None, [])],
       map[], map["r" := "t"])
  }

  /** A caller that names no run is told the row has none, though the row keeps the run it had. */
  lemma AnswerHidesTheKeptRun(draw: Draw)
    ensures
      var (after, outcome) := Execute(KeptRun(), 10, Upsert("t", None, "k", "tool.call", "", Waiting, None), draw);
      && outcome.Wrote? && outcome.event.run == None
      && "t" in after.books && |after.books["t"].events| == 1 && after.books["t"].events[0].run == Some("r")
  {
    var events := KeptRun().books["t"].events;
    TrimKeeps("k");
    assert ItemKey("k") == "k";
    assert EventClassOf("tool.call") == RunTrace by { assert "tool.call"[1] != "task."[1]; }
    assert FindKey(events, "k") == Some(0) by { assert events[..0] == []; }
  }
}
