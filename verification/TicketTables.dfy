/** The tables themselves, updated statement by statement; each method is one transaction run alone. */
module TicketTables {
  import opened Prelude
  import opened TicketContract
  import opened TicketRows
  import opened TicketInvariants

  // ---------- the tables as values ----------

  ghost predicate Aligned(tickets: map<TicketId, Ticket>, events: map<TicketId, seq<Event>>,
                          acceptances: map<TicketId, Acceptance>, history: map<TicketId, seq<HistoryRow>>)
  {
    tickets.Keys == events.Keys == history.Keys && acceptances.Keys <= tickets.Keys
  }

  /** All the rows of one ticket, gathered from the tables. */
  ghost function BookAt(tickets: map<TicketId, Ticket>, events: map<TicketId, seq<Event>>,
                        acceptances: map<TicketId, Acceptance>, history: map<TicketId, seq<HistoryRow>>, id: TicketId): Book
    requires Aligned(tickets, events, acceptances, history) && id in tickets
  {
    Book(tickets[id], events[id], if id in acceptances then Some(acceptances[id]) else None, history[id])
  }

  ghost function Books(tickets: map<TicketId, Ticket>, events: map<TicketId, seq<Event>>,
                       acceptances: map<TicketId, Acceptance>, history: map<TicketId, seq<HistoryRow>>): map<TicketId, Book>
    requires Aligned(tickets, events, acceptances, history)
  {
    map id | id in tickets :: BookAt(tickets, events, acceptances, history, id)
  }

  /** Writing one ticket's rows in each table updates that ticket's book and no other. */
  lemma BooksUpdated(tickets: map<TicketId, Ticket>, events: map<TicketId, seq<Event>>,
                     acceptances: map<TicketId, Acceptance>, history: map<TicketId, seq<HistoryRow>>,
                     id: TicketId, book: Book)
    requires Aligned(tickets, events, acceptances, history) && id in tickets
    ensures
      var a := if book.acceptance.Some? then acceptances[id := book.acceptance.value] else acceptances - {id};
      && Aligned(tickets[id := book.ticket], events[id := book.events], a, history[id := book.history])
      && Books(tickets[id := book.ticket], events[id := book.events], a, history[id := book.history])
         == Books(tickets, events, acceptances, history)[id := book]
  {
    var a := if book.acceptance.Some? then acceptances[id := book.acceptance.value] else acceptances - {id};
    var after := Books(tickets[id := book.ticket], events[id := book.events], a, history[id := book.history]);
    var expected := Books(tickets, events, acceptances, history)[id := book];
    assert after.Keys == expected.Keys;
    forall other | other in after ensures after[other] == expected[other] {
    }
  }

  /** Run alone, a transaction that writes fails only when its event id is taken. */
  lemma WritesUnlessIdTaken(db: Db, request: Request, planned: Planned)
    requires planned.effect.Write? && Target(request) in db.books
    requires TicketIndexesAccept(db.books[Target(request)], planned.effect.change)
    requires planned.effect.change.receipt.Some? && request.Transition? ==> request.command.key !in db.receipts
    ensures planned.effect.change.event.Insert? && IdTaken(db, planned.effect.change.event.row.id) ==>
              Commit(db, request, planned) == (db, Refused(UniqueViolation))
    ensures !(planned.effect.change.event.Insert? && IdTaken(db, planned.effect.change.event.row.id)) ==>
              Commit(db, request, planned) == (Apply(db, request, planned.effect.change), planned.outcome)
  {
  }

  /** At the cap the ticket row is written with its own values, and nothing else. */
  lemma TouchChangesNothing(db: Db, request: Request, draw: Draw)
    requires !request.Transition? && request.ticket in db.books
    ensures Commit(db, request, Planned(Touch(db.books[request.ticket]), Skipped)) == (db, Skipped)
  {
    assert db.books[request.ticket := db.books[request.ticket]] == db.books;
  }

  lemma TransitionWrites(db: Db, c: Command, draw: Draw)
    requires c.ticket in db.books
    requires PlanTransition(db, c, draw).effect.Write?
    ensures Transitions(db.books[c.ticket], c, draw, PlanTransition(db, c, draw).effect.change)
    ensures PlanTransition(db, c, draw).outcome == Done(PlanTransition(db, c, draw).effect.change.receipt.value)
    ensures TicketIndexesAccept(db.books[c.ticket], PlanTransition(db, c, draw).effect.change)
    ensures c.key !in db.receipts
  {
    MaxSequenceIsAbove(db.books[c.ticket].events);
    MaxVersionIsAbove(db.books[c.ticket].history);
  }

  lemma WriterWrites(db: Db, limit: nat, request: Request, draw: Draw)
    requires !request.Transition? && request.ticket in db.books
    requires Plan(db, limit, request, draw).effect.Write?
    ensures LeavesTicketAlone(db.books[request.ticket], Plan(db, limit, request, draw).effect.change)
    ensures TicketIndexesAccept(db.books[request.ticket], Plan(db, limit, request, draw).effect.change)
  {
    MaxSequenceIsAbove(db.books[request.ticket].events);
  }

  class Tables {
    var tickets: map<TicketId, Ticket>
    var events: map<TicketId, seq<Event>>
    var acceptances: map<TicketId, Acceptance>
    var history: map<TicketId, seq<HistoryRow>>
    var receipts: map<string, Receipt>
    const runs: map<string, TicketId>
    const limit: nat

    /** Every ticket has its (possibly empty) list of events and of acceptance versions. */
    ghost predicate Valid()
      reads this
    {
      Aligned(tickets, events, acceptances, history)
    }

    ghost function Contents(): Db
      requires Valid()
      reads this
    {
      Db(Books(tickets, events, acceptances, history), receipts, runs)
    }

    constructor (tickets: map<TicketId, Ticket>, runs: map<string, TicketId>, limit: nat)
      ensures Valid() && this.limit == limit
      ensures Contents() == Db(map id | id in tickets :: Book(tickets[id], [], None, []), map[], runs)
    {
      this.tickets := tickets;
      this.events := map id | id in tickets :: [];
      this.acceptances := map[];
      this.history := map id | id in tickets :: [];
      this.receipts := map[];
      this.runs := runs;
      this.limit := limit;
    }

    /** The primary key of `task_events`. */
    method EventIdExists(id: EventId) returns (taken: bool)
      requires Valid()
      ensures taken == IdTaken(Contents(), id)
    {
      taken := exists t | t in events :: exists i | 0 <= i < |events[t]| :: events[t][i].id == id;
      assert forall t :: t in events ==> Contents().books[t].events == events[t];
    }

    /** Lock the ticket, check the run, and make the value-preserving write on the ticket row. */
    method LockTarget(id: TicketId, run: Option<string>) returns (locked: bool)
      requires Valid()
      modifies this`tickets
      ensures Valid() && Contents() == old(Contents())
      ensures locked == (id in tickets && RunBelongs(Contents(), id, run))
    {
      if id !in tickets { return false; }
      if run.Some? && run.value != "" {
        if run.value !in runs || runs[run.value] != id { return false; }
      }
      tickets := tickets[id := tickets[id]];
      locked := true;
    }

    /** The foreign key from `task_events` to `task_runs`. */
    predicate RunExists(run: Option<string>)
    {
      run.None? || (run.value != "" && run.value in runs)
    }

    method NextSequence(id: TicketId) returns (n: int)
      requires Valid() && id in tickets
      ensures n == MaxSequence(events[id]) + 1
    {
      var max := 0;
      for i := 0 to |events[id]|
        invariant max == MaxSequence(events[id][..i])
      {
        assert events[id][..i + 1][..i] == events[id][..i];
        if events[id][i].sequence > max { max := events[id][i].sequence; }
      }
      assert events[id][..|events[id]|] == events[id];
      n := max + 1;
    }

    /** The replay, version and action checks, before anything is written. */
    method Precheck(c: Command, ghost draw: Draw) returns (answer: Option<Outcome>)
      requires Valid()
      ensures answer.None? ==> PlanTransition(Contents(), c, draw).effect.Write?
      ensures answer.Some? ==> PlanTransition(Contents(), c, draw) == Planned(Nothing, answer.value)
    {
      var complaint := Validate(c);
      if complaint.Some? { return Some(Refused(complaint.value)); }
      if c.ticket !in tickets { return Some(Refused(TaskNotFound)); }
      var ticket := tickets[c.ticket];
      if c.key in receipts {
        var replay := receipts[c.key];
        if replay.ticket != c.ticket || replay.action != c.action { return Some(Refused(KeyReused)); }
        return Some(Replayed(replay));
      }
      var currentVersion := if ticket.version == 0 then 1 else ticket.version;
      if currentVersion != c.expectedVersion { return Some(Refused(VersionConflict)); }
      if c.action !in AllowedActions(ticket.status) { return Some(Refused(ActionNotAllowed)); }
      // UPDATE tickets ... WHERE data_version = expected
      if ticket.version != c.expectedVersion { return Some(Refused(VersionConflict)); }
      answer := None;
    }

    /** The writes of an admitted command: ticket row, event, acceptance and history, then the receipt. */
    method Record(c: Command, sequence: int, draw: Draw, ghost book: Book, ghost change: Change) returns (response: Receipt)
      requires c.ticket in tickets && c.ticket in events && c.ticket in history
      requires book.ticket == tickets[c.ticket] && book.events == events[c.ticket] && book.history == history[c.ticket]
      requires Transitions(book, c, draw, change) && sequence == MaxSequence(book.events) + 1
      modifies this
      ensures Some(response) == change.receipt
      ensures receipts == old(receipts)[c.key := response]
      ensures tickets == old(tickets)[c.ticket := change.ticket]
      ensures events == old(events)[c.ticket := old(events)[c.ticket] + [change.event.row]]
      ensures history == if c.action == Complete then old(history)[c.ticket := old(history)[c.ticket] + [change.history.value]] else old(history)
      ensures acceptances == match c.action
                             case Complete => old(acceptances)[c.ticket := change.acceptance.row]
                             case Reopen => old(acceptances) - {c.ticket}
                             case _ => old(acceptances)
    {
      var ticket := tickets[c.ticket];
      var nextStatus := NextStatus(c.action);
      var completedAt := ticket.completedAt;
      if nextStatus == Completed { completedAt := Some(draw.now); }
      if nextStatus == Pending { completedAt := None; }
      tickets := tickets[c.ticket := ticket.(status := nextStatus, completedAt := completedAt, version := ticket.version + 1)];
      events := events[c.ticket := events[c.ticket] + [LifecycleEvent(c, sequence, draw)]];
      var acceptance := Acceptance(draw.id, draw.now, ticket.owner, c.actor, c.evidence);
      if c.action == Complete {
        var version := MaxVersion(history[c.ticket]) + 1;
        history := history[c.ticket := history[c.ticket] + [HistoryRow(version, acceptance)]];
        acceptances := acceptances[c.ticket := acceptance];
      }
      if c.action == Reopen {
        acceptances := acceptances - {c.ticket};
      }
      response := Receipt(c.ticket, c.action, nextStatus, tickets[c.ticket].version, draw.id);
      receipts := receipts[c.key := response];
    }

    /** One lifecycle command. */
    method TransitionTicketLifecycle(c: Command, draw: Draw) returns (outcome: Outcome)
      requires Valid()
      modifies this
      ensures Valid()
      ensures (Contents(), outcome) == Execute(old(Contents()), limit, Transition(c), draw)
    {
      var answer := Precheck(c, draw);
      if answer.Some? {
        outcome := answer.value;
      } else {
        assert c.ticket in tickets;
        outcome := Carry(c, draw);
      }
    }

    method Carry(c: Command, draw: Draw) returns (outcome: Outcome)
      requires Valid() && c.ticket in tickets
      requires PlanTransition(Contents(), c, draw).effect.Write?
      modifies this
      ensures Valid()
      ensures (Contents(), outcome) == Commit(old(Contents()), Transition(c), PlanTransition(old(Contents()), c, draw))
    {
      ghost var before := Contents();
      ghost var change := PlanTransition(before, c, draw).effect.change;
      TransitionWrites(before, c, draw);
      WritesUnlessIdTaken(before, Transition(c), PlanTransition(before, c, draw));
      BooksUpdated(tickets, events, acceptances, history, c.ticket, ApplyBook(before.books[c.ticket], change));
      Unwritten(c.ticket);
      var sequence := NextSequence(c.ticket);
      var taken := EventIdExists(draw.id);
      if taken {
        // the insert fails on the primary key, so the transaction rolls back
        return Refused(UniqueViolation);
      }
      var response := Record(c, sequence, draw, before.books[c.ticket], change);
      outcome := Done(response);
    }

    /** The insert of a trace or plain lifecycle row, unless its id is taken. */
    method WriteRow(ghost request: Request, id: TicketId, row: Event, draw: Draw) returns (outcome: Outcome)
      requires Valid() && !request.Transition? && request.ticket == id && id in tickets
      requires Plan(Contents(), limit, request, draw).effect.Write?
      requires Plan(Contents(), limit, request, draw).effect.change.event == TicketRows.Insert(row)
      requires Plan(Contents(), limit, request, draw).outcome == Wrote(row)
      modifies this`events
      ensures Valid()
      ensures (Contents(), outcome) == Commit(old(Contents()), request, Plan(old(Contents()), limit, request, draw))
    {
      ghost var before := Contents();
      WriterWrites(before, limit, request, draw);
      WritesUnlessIdTaken(before, request, Plan(before, limit, request, draw));
      ghost var book := ApplyBook(before.books[id], Plan(before, limit, request, draw).effect.change);
      BooksUpdated(tickets, events, acceptances, history, id, book);
      Unwritten(id);
      var taken := EventIdExists(row.id);
      if taken { return Refused(UniqueViolation); }
      events := events[id := events[id] + [row]];
      outcome := Wrote(row);
    }

    /** Writing back what a row already holds changes nothing. */
    lemma Unwritten(id: TicketId)
      requires Valid() && id in tickets
      ensures tickets[id := tickets[id]] == tickets && history[id := history[id]] == history
      ensures id in acceptances ==> acceptances[id := acceptances[id]] == acceptances
      ensures id !in acceptances ==> acceptances - {id} == acceptances
      ensures Contents().books[id := Contents().books[id]] == Contents().books
    {
    }

    method AppendTaskEvent(id: TicketId, run: Option<string>, kind: string, title: string, status: Status,
                           summary: Option<string>, draw: Draw)
      returns (outcome: Outcome)
      requires Valid()
      modifies this`tickets, this`events
      ensures Valid()
      ensures (Contents(), outcome) == Execute(old(Contents()), limit, Append(id, run, kind, title, status, summary), draw)
    {
      ghost var request := Append(id, run, kind, title, status, summary);
      var locked := LockTarget(id, run);
      if !locked { return Skipped; }
      var eventClass := EventClassOf(kind);
      if eventClass != Lifecycle && |events[id]| >= limit {
        TouchChangesNothing(Contents(), request, draw);
        return Skipped;
      }
      var sequence := NextSequence(id);
      var row := Event(draw.id, run, sequence, kind, eventClass, Text(Clip(title, 160)), status, Summary(summary), None, draw.now);
      // the insert fails on the foreign key, the transaction rolls back, and the caller is answered null
      if !RunExists(row.run) { return Skipped; }
      outcome := WriteRow(request, id, row, draw);
    }

    /** Rewrite the trace row that has the key, or insert one while there is room. */
    method UpsertTaskEvent(id: TicketId, run: Option<string>, itemKey: string, kind: string, title: string, status: Status,
                           summary: Option<string>, draw: Draw)
      returns (outcome: Outcome)
      requires Valid()
      modifies this`tickets, this`events
      ensures Valid()
      ensures (Contents(), outcome) == Execute(old(Contents()), limit, Upsert(id, run, itemKey, kind, title, status, summary), draw)
    {
      ghost var request := Upsert(id, run, itemKey, kind, title, status, summary);
      var key := ItemKey(itemKey);
      if key == "" { return Skipped; }
      if EventClassOf(kind) != RunTrace { return Refused(NotARunTrace); }
      var locked := LockTarget(id, run);
      if !locked { return Skipped; }
      var found := FindKey(events[id], key);
      if found.Some? {
        var existing := events[id][found.value];
        if existing.eventClass != RunTrace { return Refused(ImmutableEvent); }
        var patch := Patch(kind, Text(Clip(title, 160)), status, Summary(summary), run);
        if existing.run.None? && !RunExists(run) { return Skipped; }
        outcome := RewriteRow(request, id, existing, patch, draw);
        return;
      }
      if |events[id]| >= limit {
        TouchChangesNothing(Contents(), request, draw);
        return Skipped;
      }
      var sequence := NextSequence(id);
      var row := Event(draw.id, run, sequence, kind, RunTrace, Text(Clip(title, 160)), status, Summary(summary), Some(key), draw.now);
      if !RunExists(row.run) { return Skipped; }
      outcome := WriteRow(request, id, row, draw);
    }

    /** The update in place of the row with the key. */
    method RewriteRow(ghost request: Request, id: TicketId, existing: Event, patch: Patch, ghost draw: Draw) returns (outcome: Outcome)
      requires Valid() && request.Upsert? && request.ticket == id && id in tickets
      requires Plan(Contents(), limit, request, draw)
            == Planned(Write(Change(tickets[id], Update(existing.id, patch), Keep, None, None)), Wrote(Answered(existing, patch)))
      modifies this`events
      ensures Valid()
      ensures (Contents(), outcome) == Commit(old(Contents()), request, Plan(old(Contents()), limit, request, draw))
    {
      ghost var before := Contents();
      WriterWrites(before, limit, request, draw);
      WritesUnlessIdTaken(before, request, Plan(before, limit, request, draw));
      BooksUpdated(tickets, events, acceptances, history, id, ApplyBook(before.books[id], Plan(before, limit, request, draw).effect.change));
      Unwritten(id);
      events := events[id := UpdateRow(events[id], existing.id, patch)];
      outcome := Wrote(Answered(existing, patch));
    }
  }
}
