/** What each request of the ticket store does to the rows, column by column, and when it is taken. */
module TicketMeaning {
  import opened Prelude
  import opened TicketContract
  import opened TicketRows
  import opened TicketInvariants

  // ---------- lifecycle commands ----------

  /** What the service asks of a command before it looks at the ticket. */
  ghost predicate WellFormed(c: Command)
  {
    && c.expectedVersion >= 1 && 8 <= |c.key| <= 200
    && (c.action == Complete ==> c.evidence.Object?)
    && (c.action == Reopen ==> !AllSpace(c.reason))
  }

  lemma ValidExactlyWhen(c: Command)
    ensures Validate(c).None? <==> WellFormed(c)
    ensures Validate(c) == Some(VersionRequired) <==> c.expectedVersion < 1
    ensures Validate(c) == Some(KeyRequired) <==> c.expectedVersion >= 1 && !(8 <= |c.key| <= 200)
    ensures Validate(c) == Some(EvidenceRequired) <==>
              c.expectedVersion >= 1 && 8 <= |c.key| <= 200 && c.action == Complete && !c.evidence.Object?
    ensures Validate(c) == Some(ReasonRequired) <==>
              c.expectedVersion >= 1 && 8 <= |c.key| <= 200 && c.action == Reopen && AllSpace(c.reason)
  {
    TrimIsEmpty(c.reason);
    hide Trim, AllSpace;
  }

  /** A command is carried out exactly when all of this holds. */
  lemma CommandIsDoneExactlyWhen(limit: nat, db: Db, c: Command, draw: Draw)
    ensures Execute(db, limit, Transition(c), draw).1.Done? <==>
              && WellFormed(c) && c.ticket in db.books && c.key !in db.receipts && !IdTaken(db, draw.id)
              && c.expectedVersion == db.books[c.ticket].ticket.version
              && MayLeave(db.books[c.ticket].ticket.status, c.action)
  {
    ValidExactlyWhen(c);
    if c.ticket in db.books {
      AllowedActionsMeaning(db.books[c.ticket].ticket.status, c.action);
      MaxSequenceIsAbove(db.books[c.ticket].events);
      MaxVersionIsAbove(db.books[c.ticket].history);
    }
    hide Validate, WellFormed, AllowedActions, MayLeave, MaxSequence, MaxVersion, LifecycleEvent;
  }

  /** Otherwise it changes nothing, and the first of these that applies is the answer. */
  lemma CommandIsRefusedWith(limit: nat, db: Db, c: Command, draw: Draw)
    requires !Execute(db, limit, Transition(c), draw).1.Done?
    ensures Execute(db, limit, Transition(c), draw) == (db,
      if c.expectedVersion < 1 then Refused(VersionRequired)
      else if !(8 <= |c.key| <= 200) then Refused(KeyRequired)
      else if c.action == Complete && !c.evidence.Object? then Refused(EvidenceRequired)
      else if c.action == Reopen && AllSpace(c.reason) then Refused(ReasonRequired)
      else if c.ticket !in db.books then Refused(TaskNotFound)
      else if c.key in db.receipts then
        (if db.receipts[c.key].ticket == c.ticket && db.receipts[c.key].action == c.action
         then Replayed(db.receipts[c.key]) else Refused(KeyReused))
      else if c.expectedVersion == db.books[c.ticket].ticket.version then
        (if MayLeave(db.books[c.ticket].ticket.status, c.action) then Refused(UniqueViolation) else Refused(ActionNotAllowed))
      else if c.expectedVersion == 1 && db.books[c.ticket].ticket.version == 0 && !MayLeave(db.books[c.ticket].ticket.status, c.action)
      then Refused(ActionNotAllowed)
      else Refused(VersionConflict))
  {
    ValidExactlyWhen(c);
    if c.ticket in db.books { AllowedActionsMeaning(db.books[c.ticket].ticket.status, c.action); }
    hide Validate, AllowedActions, MayLeave, AllSpace, MaxSequence, MaxVersion, LifecycleEvent, IndexesAccept;
  }

  /**
   * One command's whole mark on the tables: the ticket's own columns, its receipt, one more lifecycle event,
   * and no other ticket's rows.
   */
  ghost predicate Commanded(db: Db, after: Db, c: Command, draw: Draw, status: Status, completedAt: Option<Time>, kind: string, summary: Wording)
    requires c.ticket in db.books
  {
    && after.runs == db.runs
    && after.receipts == db.receipts[c.key := Receipt(c.ticket, c.action, status, db.books[c.ticket].ticket.version + 1, draw.id)]
    && (forall id :: id in after.books <==> id in db.books)
    && (forall id :: id in db.books && id != c.ticket ==> after.books[id] == db.books[id])
    && after.books[c.ticket].ticket == Ticket(db.books[c.ticket].ticket.owner, status, completedAt, db.books[c.ticket].ticket.version + 1)
    && after.books[c.ticket].events == db.books[c.ticket].events
         + [Event(draw.id, None, |db.books[c.ticket].events| + 1, kind, Lifecycle, Standard(c.action), status, Some(summary), None, draw.now)]
  }

  ghost predicate Evidenced(before: Book, after: Book, c: Command, draw: Draw)
  {
    var row := Acceptance(draw.id, draw.now, before.ticket.owner, c.actor, c.evidence);
    after.acceptance == Some(row) && after.history == before.history + [HistoryRow(|before.history| + 1, row)]
  }

  /** An acceptance of the work: accepted, claimed, nothing else. */
  lemma AcceptLeaves(start: map<TicketId, int>, limit: nat, db: Db, c: Command, draw: Draw)
    requires DbOk(start, limit, db) && Execute(db, limit, Transition(c), draw).1.Done? && c.action == Accept
    ensures c.ticket in db.books
    ensures
      var (after, outcome) := Execute(db, limit, Transition(c), draw);
      var before := db.books[c.ticket];
      && Commanded(db, after, c, draw, Accepted, before.ticket.completedAt, "task.claimed", Standard(Accept))
      && outcome == Done(after.receipts[c.key])
      && after.books[c.ticket].acceptance == before.acceptance && after.books[c.ticket].history == before.history
  {
    hide Execute, DbOk, Apply, Commanded, Transitions, MaxSequence, MaxVersion, Evidenced, LifecycleKind;
    var change := CommandChange(start, limit, db, c, draw);
    CommandApplied(db, c, draw, change);
    CommandedReceipt(db, Apply(db, Transition(c), change), c, draw);
    KindOf(c.action);
  }

  /** A completion: dated, its evidence in the acceptance row and once more in the history. */
  lemma CompleteLeaves(start: map<TicketId, int>, limit: nat, db: Db, c: Command, draw: Draw)
    requires DbOk(start, limit, db) && Execute(db, limit, Transition(c), draw).1.Done? && c.action == Complete
    ensures c.ticket in db.books
    ensures
      var (after, outcome) := Execute(db, limit, Transition(c), draw);
      var before := db.books[c.ticket];
      && Commanded(db, after, c, draw, Completed, Some(draw.now), "task.accepted", Standard(Complete))
      && outcome == Done(after.receipts[c.key])
      && Evidenced(before, after.books[c.ticket], c, draw)
  {
    hide Execute, DbOk, Apply, Commanded, Transitions, MaxSequence, MaxVersion, Evidenced, LifecycleKind;
    var change := CommandChange(start, limit, db, c, draw);
    CommandApplied(db, c, draw, change);
    CommandedReceipt(db, Apply(db, Transition(c), change), c, draw);
    KindOf(c.action);
  }

  /** A cancellation, with the reason if one is given. */
  lemma CancelLeaves(start: map<TicketId, int>, limit: nat, db: Db, c: Command, draw: Draw)
    requires DbOk(start, limit, db) && Execute(db, limit, Transition(c), draw).1.Done? && c.action == Cancel
    ensures c.ticket in db.books
    ensures
      var (after, outcome) := Execute(db, limit, Transition(c), draw);
      var before := db.books[c.ticket];
      && Commanded(db, after, c, draw, Cancelled, before.ticket.completedAt, "task.cancelled",
                   if c.reason == "" then Standard(Cancel) else Text(if |c.reason| <= 1000 then c.reason else c.reason[..1000]))
      && outcome == Done(after.receipts[c.key])
      && after.books[c.ticket].acceptance == before.acceptance && after.books[c.ticket].history == before.history
  {
    hide Execute, DbOk, Apply, Commanded, Transitions, MaxSequence, MaxVersion, Evidenced, LifecycleKind;
    var change := CommandChange(start, limit, db, c, draw);
    CommandApplied(db, c, draw, change);
    CommandedReceipt(db, Apply(db, Transition(c), change), c, draw);
    KindOf(c.action);
  }

  /** A reopening: pending and undated, the acceptance row gone and its history kept. */
  lemma ReopenLeaves(start: map<TicketId, int>, limit: nat, db: Db, c: Command, draw: Draw)
    requires DbOk(start, limit, db) && Execute(db, limit, Transition(c), draw).1.Done? && c.action == Reopen
    ensures c.ticket in db.books
    ensures
      var (after, outcome) := Execute(db, limit, Transition(c), draw);
      var before := db.books[c.ticket];
      && Commanded(db, after, c, draw, Pending, None, "task.reopened",
                   Text(if |c.reason| <= 1000 then c.reason else c.reason[..1000]))
      && outcome == Done(after.receipts[c.key])
      && after.books[c.ticket].acceptance == None && after.books[c.ticket].history == before.history
  {
    hide Execute, DbOk, Apply, Commanded, Transitions, MaxSequence, MaxVersion, Evidenced, LifecycleKind;
    var change := CommandChange(start, limit, db, c, draw);
    CommandApplied(db, c, draw, change);
    CommandedReceipt(db, Apply(db, Transition(c), change), c, draw);
    KindOf(c.action);
  }

  lemma KindOf(action: Action)
    ensures action == Accept ==> LifecycleKind(action) == "task.claimed"
    ensures action == Complete ==> LifecycleKind(action) == "task.accepted"
    ensures action == Cancel ==> LifecycleKind(action) == "task.cancelled"
    ensures action == Reopen ==> LifecycleKind(action) == "task.reopened"
  {
  }

  lemma CommandedReceipt(db: Db, after: Db, c: Command, draw: Draw)
    requires c.ticket in db.books
    requires Commanded(db, after, c, draw, NextStatus(c.action), NextTicket(db.books[c.ticket].ticket, c.action, draw.now).completedAt,
                       LifecycleKind(c.action), LifecycleSummary(c))
    ensures c.key in after.receipts
    ensures after.receipts[c.key] == Receipt(c.ticket, c.action, NextStatus(c.action), db.books[c.ticket].ticket.version + 1, draw.id)
    ensures c.ticket in after.books
  {
    hide LifecycleKind, LifecycleSummary;
  }

  lemma CommandChange(start: map<TicketId, int>, limit: nat, db: Db, c: Command, draw: Draw) returns (change: Change)
    requires DbOk(start, limit, db) && Execute(db, limit, Transition(c), draw).1.Done?
    ensures c.ticket in db.books && Transitions(db.books[c.ticket], c, draw, change)
    ensures MaxSequence(db.books[c.ticket].events) == |db.books[c.ticket].events|
    ensures MaxVersion(db.books[c.ticket].history) == |db.books[c.ticket].history|
    ensures Execute(db, limit, Transition(c), draw) == (Apply(db, Transition(c), change), Done(change.receipt.value))
  {
    change := PlanTransition(db, c, draw).effect.change;
    CommandIsDoneExactlyWhen(limit, db, c, draw);
    assert BookOk(start[c.ticket], limit, db, c.ticket);
    hide DbOk, Validate, WellFormed, AllowedActions, MayLeave, IndexesAccept, IdTaken, Apply;
    TransitionShape(limit, db, c, draw);
    MaxOfNumbered(db.books[c.ticket].events);
    MaxVersionOfNumbered(db.books[c.ticket].history);
    hide PlanTransition, Transitions, BookOk, MaxSequence, MaxVersion;
  }

  lemma CommandApplied(db: Db, c: Command, draw: Draw, change: Change)
    requires c.ticket in db.books && Transitions(db.books[c.ticket], c, draw, change)
    requires MaxSequence(db.books[c.ticket].events) == |db.books[c.ticket].events|
    requires MaxVersion(db.books[c.ticket].history) == |db.books[c.ticket].history|
    ensures
      var after := Apply(db, Transition(c), change);
      var before := db.books[c.ticket];
      && Commanded(db, after, c, draw, NextStatus(c.action), NextTicket(before.ticket, c.action, draw.now).completedAt,
                   LifecycleKind(c.action), LifecycleSummary(c))
      && change.receipt == Some(Receipt(c.ticket, c.action, NextStatus(c.action), before.ticket.version + 1, draw.id))
      && match c.action {
           case Complete => Evidenced(before, after.books[c.ticket], c, draw)
           case Reopen => after.books[c.ticket].acceptance == None && after.books[c.ticket].history == before.history
           case _ => after.books[c.ticket].acceptance == before.acceptance && after.books[c.ticket].history == before.history
         }
  {
    hide AllowedActions, LifecycleKind, LifecycleSummary, MaxSequence, MaxVersion;
  }

  // ---------- appended rows ----------

  ghost predicate OfTask(kind: string)
  {
    |kind| >= 5 && kind[..5] == "task."
  }

  /** The class rule: two retired kinds, then the prefix. */
  lemma ClassOfKind(kind: string)
    ensures EventClassOf(kind) == Legacy <==> kind == "task.completed" || kind == "task.failed"
    ensures EventClassOf(kind) == Lifecycle <==> OfTask(kind) && kind != "task.completed" && kind != "task.failed"
    ensures EventClassOf(kind) == RunTrace <==> !OfTask(kind)
  {
    assert "task.completed"[..5] == "task.";
    assert "task.failed"[..5] == "task.";
  }

  ghost predicate Owns(db: Db, ticket: TicketId, run: Option<string>)
  {
    run.Some? ==> run.value != "" && run.value in db.runs && db.runs[run.value] == ticket
  }

  /** No other row of any table. */
  ghost predicate OnlyEventsOf(ticket: TicketId, db: Db, after: Db)
  {
    && after.receipts == db.receipts && after.runs == db.runs
    && (forall id :: id in after.books <==> id in db.books)
    && (forall id :: id in db.books && id != ticket ==> after.books[id] == db.books[id])
    && (ticket in db.books ==> after.books[ticket] == db.books[ticket].(events := after.books[ticket].events))
  }


  /** The columns a writer fills in, whichever way the row came about. */
  ghost predicate Carries(row: Event, request: Request)
    requires !request.Transition?
  {
    && row.kind == request.kind && row.status == request.status
    && row.title == Text(if |request.title| <= 160 then request.title else request.title[..160])
    && row.summary == (match request.summary
         case None => None
         case Some(text) => if text == "" then None else Some(Text(if |text| <= 1000 then text else text[..1000])))
  }

  /**
   * A plain append is written exactly when its ticket is there, the run it names, if any, is a run of that ticket, and it
   * is a lifecycle fact or there is room. Its row is the last, with the caller's columns, and no other row changes.
   */
  lemma AppendAdmission(start: map<TicketId, int>, limit: nat, db: Db, request: Request, draw: Draw)
    requires DbOk(start, limit, db) && request.Append? && !IdTaken(db, draw.id)
    ensures
      var (after, outcome) := Execute(db, limit, request, draw);
      && (outcome.Wrote? <==>
            && request.ticket in db.books && Owns(db, request.ticket, request.run)
            && (|db.books[request.ticket].events| < limit
                || (OfTask(request.kind) && request.kind != "task.completed" && request.kind != "task.failed")))
      && (!outcome.Wrote? ==> outcome == Skipped && after == db)
      && (outcome.Wrote? ==>
            && OnlyEventsOf(request.ticket, db, after)
            && after.books[request.ticket].events == db.books[request.ticket].events + [outcome.event]
            && var row := outcome.event;
               && Carries(row, request) && row.id == draw.id && row.time == draw.now && row.run == request.run && row.key == None
               && row.sequence == |db.books[request.ticket].events| + 1
               && (row.eventClass == Legacy <==> request.kind == "task.completed" || request.kind == "task.failed")
               && (row.eventClass == RunTrace <==> !OfTask(request.kind)))
  {
    AppendIsPlanned(start, limit, db, request, draw);
    AppendPlan(limit, db, request, draw);
    var planned := PlanAppend(db, limit, request, draw);
    if planned.effect.Write? { RowApplied(db, request, planned.effect.change); }
    hide OfTask, DbOk, IdTaken, Execute, MaxSequence, Apply, PlanAppend, Owns, Carries, OnlyEventsOf;
  }

  lemma AppendIsPlanned(start: map<TicketId, int>, limit: nat, db: Db, request: Request, draw: Draw)
    requires DbOk(start, limit, db) && request.Append? && !IdTaken(db, draw.id)
    ensures
      var planned := PlanAppend(db, limit, request, draw);
      && Execute(db, limit, request, draw) == (if planned.effect.Write? then Apply(db, request, planned.effect.change) else db, planned.outcome)
      && (request.ticket in db.books ==> MaxSequence(db.books[request.ticket].events) == |db.books[request.ticket].events|)
  {
    if request.ticket in db.books {
      assert BookOk(start[request.ticket], limit, db, request.ticket);
      MaxOfNumbered(db.books[request.ticket].events);
      InsertFits(limit, db, request, draw);
    }
    hide IdTaken, EventClassOf, MaxSequence, Apply, DbOk, PlanAppend, LogOk;
  }

  lemma InsertFits(limit: nat, db: Db, request: Request, draw: Draw)
    requires request.Append? && request.ticket in db.books && !IdTaken(db, draw.id)
    requires MaxSequence(db.books[request.ticket].events) == |db.books[request.ticket].events| && LogOk(limit, db.books[request.ticket].events)
    ensures PlanAppend(db, limit, request, draw).effect.Write? ==> IndexesAccept(db, request, PlanAppend(db, limit, request, draw).effect.change)
  {
    hide IdTaken, EventClassOf, MaxSequence, KeyedTraces, DistinctIds, TraceCount;
  }

  /** What an append decides to do. */
  lemma AppendPlan(limit: nat, db: Db, request: Request, draw: Draw)
    requires request.Append?
    ensures
      var planned := PlanAppend(db, limit, request, draw);
      && (planned.outcome.Wrote? <==>
            && request.ticket in db.books && Owns(db, request.ticket, request.run)
            && (|db.books[request.ticket].events| < limit
                || (OfTask(request.kind) && request.kind != "task.completed" && request.kind != "task.failed")))
      && (planned.effect.Write? ==> request.ticket in db.books && LeavesTicketAlone(db.books[request.ticket], planned.effect.change))
      && (!planned.outcome.Wrote? ==> planned.outcome == Skipped && (planned.effect.Write? ==> planned.effect.change.event == NoEvent))
      && (planned.outcome.Wrote? ==>
            && planned.effect.Write? && planned.effect.change.event == Insert(planned.outcome.event)
            && var row := planned.outcome.event;
               && Carries(row, request) && row.id == draw.id && row.time == draw.now && row.run == request.run && row.key == None
               && row.sequence == MaxSequence(db.books[request.ticket].events) + 1
               && (row.eventClass == Legacy <==> request.kind == "task.completed" || request.kind == "task.failed")
               && (row.eventClass == RunTrace <==> !OfTask(request.kind)))
  {
    ClassOfKind(request.kind);
    hide EventClassOf, OfTask, MaxSequence;
  }

  /** A change that leaves the ticket alone reaches the event rows of its ticket and nothing else. */
  lemma RowApplied(db: Db, request: Request, change: Change)
    requires !request.Transition? && request.ticket in db.books && LeavesTicketAlone(db.books[request.ticket], change)
    ensures OnlyEventsOf(request.ticket, db, Apply(db, request, change))
    ensures change.event.NoEvent? ==> Apply(db, request, change) == db
    ensures change.event.Insert? ==>
              Apply(db, request, change).books[request.ticket].events == db.books[request.ticket].events + [change.event.row]
    ensures change.event.Update? ==>
              Apply(db, request, change).books[request.ticket].events
              == UpdateRow(db.books[request.ticket].events, change.event.id, change.event.patch)
  {
    if change.event.NoEvent? {
      assert db.books[request.ticket := db.books[request.ticket]] == db.books;
    }
  }

  // ---------- upserted rows ----------

  /**
   * A trace upsert: refused for a kind that is no trace, skipped without a key, a ticket or a run of that ticket; it
   * rewrites the row with the key whatever the cap, and inserts one only while there is room.
   */
  lemma UpsertWritesExactlyWhen(start: map<TicketId, int>, limit: nat, db: Db, request: Request, draw: Draw)
    requires DbOk(start, limit, db) && request.Upsert? && !IdTaken(db, draw.id)
    ensures
      var (after, outcome) := Execute(db, limit, request, draw);
      var key := if |Trim(request.itemKey)| <= 120 then Trim(request.itemKey) else Trim(request.itemKey)[..120];
      && (outcome.Refused? <==> key != "" && OfTask(request.kind)) && (outcome.Refused? ==> outcome == Refused(NotARunTrace))
      && (outcome.Refused? || outcome.Wrote? || outcome == Skipped) && (!outcome.Wrote? ==> after == db)
      && (outcome.Wrote? <==>
            && key != "" && !OfTask(request.kind) && request.ticket in db.books
            && if HasKey(db.books[request.ticket].events, key)
               then Owns(db, request.ticket, request.run)
                    || (request.run == Some("") && RowHasRun(db.books[request.ticket].events, key))
               else Owns(db, request.ticket, request.run) && |db.books[request.ticket].events| < limit)
  {
    KeyIs(request.itemKey);
    UpsertIsPlanned(start, limit, db, request, draw);
    UpsertPlan(limit, db, request, draw);
    var planned := PlanUpsert(db, limit, request, draw);
    if planned.effect.Write? { RowApplied(db, request, planned.effect.change); }
    hide OfTask, DbOk, IdTaken, Execute, MaxSequence, Apply, PlanUpsert, Owns, OnlyEventsOf, ItemKey, RowHasRun, Trim;
  }

  /** The item key as it is stored. */
  lemma KeyIs(text: string)
    ensures ItemKey(text) == if |Trim(text)| <= 120 then Trim(text) else Trim(text)[..120]
  {
  }

  /** The columns no rewriting touches. */
  ghost predicate SameRow(a: Event, b: Event)
  {
    a.id == b.id && a.sequence == b.sequence && a.eventClass == b.eventClass && a.key == b.key && a.time == b.time
  }

  /** Every row with the key has the caller's columns and keeps its run if it had one; every other row is as it was. */
  ghost predicate Rewritten(before: seq<Event>, after: seq<Event>, key: string, request: Request)
    requires request.Upsert?
  {
    && |after| == |before|
    && (forall i :: 0 <= i < |before| && before[i].key != Some(key) ==> after[i] == before[i])
    && (forall i :: 0 <= i < |before| && before[i].key == Some(key) ==>
          SameRow(after[i], before[i]) && Carries(after[i], request)
          && after[i].run == if before[i].run.Some? then before[i].run else request.run)
  }

  /** The answer for a rewritten row: the row's own columns, the caller's, and the caller's run or none. */
  ghost predicate AnswersFor(answer: Event, before: seq<Event>, key: string, request: Request)
    requires request.Upsert?
  {
    && Carries(answer, request)
    && answer.run == (if request.run == Some("") then None else request.run)
    && forall i :: 0 <= i < |before| && before[i].key == Some(key) ==> SameRow(answer, before[i])
  }

  ghost predicate NewTrace(row: Event, key: string, request: Request, draw: Draw, n: int)
    requires request.Upsert?
  {
    && Carries(row, request) && row.id == draw.id && row.time == draw.now && row.run == request.run
    && row.key == Some(key) && row.eventClass == RunTrace && row.sequence == n
  }

  /** What an upsert that wrote left: the rows with its key rewritten, or one new row behind the others. */
  lemma UpsertLeaves(start: map<TicketId, int>, limit: nat, db: Db, request: Request, draw: Draw)
    requires DbOk(start, limit, db) && request.Upsert? && !IdTaken(db, draw.id)
    requires Execute(db, limit, request, draw).1.Wrote?
    ensures
      var (after, outcome) := Execute(db, limit, request, draw);
      var key := if |Trim(request.itemKey)| <= 120 then Trim(request.itemKey) else Trim(request.itemKey)[..120];
      && request.ticket in db.books && OnlyEventsOf(request.ticket, db, after)
      && var before := db.books[request.ticket].events;
         var events := after.books[request.ticket].events;
         if HasKey(before, key)
         then Rewritten(before, events, key, request) && AnswersFor(outcome.event, before, key, request)
         else events == before + [outcome.event] && NewTrace(outcome.event, key, request, draw, |before| + 1)
  {
    hide DbOk, IdTaken, Execute, MaxSequence, Apply, PlanUpsert, OnlyEventsOf, ItemKey, HasKey, Rewritten, AnswersFor, NewTrace, LogOk, Trim;
    UpsertIsPlanned(start, limit, db, request, draw);
    UpsertPlan(limit, db, request, draw);
    RowApplied(db, request, PlanUpsert(db, limit, request, draw).effect.change);
    UpsertRow(limit, db, request, draw);
    KeyIs(request.itemKey);
  }

  lemma UpsertRow(limit: nat, db: Db, request: Request, draw: Draw)
    requires request.Upsert? && PlanUpsert(db, limit, request, draw).outcome.Wrote?
    requires request.ticket in db.books ==> LogOk(limit, db.books[request.ticket].events)
    ensures request.ticket in db.books && PlanUpsert(db, limit, request, draw).effect.Write?
    ensures
      var planned := PlanUpsert(db, limit, request, draw);
      var key := ItemKey(request.itemKey);
      var before := db.books[request.ticket].events;
      var write := planned.effect.change.event;
      if HasKey(before, key)
      then
        && write.Update? && Rewritten(before, UpdateRow(before, write.id, write.patch), key, request)
        && AnswersFor(planned.outcome.event, before, key, request)
      else
        && write == Insert(planned.outcome.event)
        && NewTrace(planned.outcome.event, key, request, draw, MaxSequence(before) + 1)
  {
    hide EventClassOf, MaxSequence, ItemKey, LogOk, HasKey, Rewritten, AnswersFor, UpdateRow, Patched, Answered;
    var before := db.books[request.ticket].events;
    var key := ItemKey(request.itemKey);
    KeyIsFound(limit, before, key);
    var found := FindKey(before, key);
    if found.Some? {
      RowRewritten(limit, before, key, found.value, request, PlanUpsert(db, limit, request, draw).effect.change.event.patch);
    }
  }

  lemma RowRewritten(limit: nat, before: seq<Event>, key: string, at: nat, request: Request, patch: Patch)
    requires request.Upsert? && LogOk(limit, before) && at < |before| && before[at].key == Some(key)
    requires patch == Patch(request.kind, Text(Clip(request.title, 160)), request.status, Summary(request.summary), request.run)
    ensures Rewritten(before, UpdateRow(before, before[at].id, patch), key, request)
    ensures AnswersFor(Answered(before[at], patch), before, key, request)
  {
    forall i | 0 <= i < |before| && i != at ensures before[i].id != before[at].id && before[i].key != Some(key) {
      if i < at { assert before[i].id != before[at].id; } else { assert before[at].id != before[i].id; }
    }
    hide LogOk;
  }

  ghost predicate RowHasRun(events: seq<Event>, key: string)
  {
    exists i :: 0 <= i < |events| && events[i].key == Some(key) && events[i].run.Some?
  }

  ghost predicate HasKey(events: seq<Event>, key: string)
  {
    exists i :: 0 <= i < |events| && events[i].key == Some(key)
  }

  lemma UpsertPlan(limit: nat, db: Db, request: Request, draw: Draw)
    requires request.Upsert? && (request.ticket in db.books ==> LogOk(limit, db.books[request.ticket].events))
    ensures
      var planned := PlanUpsert(db, limit, request, draw);
      var key := ItemKey(request.itemKey);
      && (planned.outcome.Refused? <==> key != "" && OfTask(request.kind))
      && (planned.outcome.Refused? ==> planned == Planned(Nothing, Refused(NotARunTrace)))
      && (planned.outcome.Refused? || planned.outcome.Wrote? || planned.outcome == Skipped)
      && (planned.effect.Write? ==> request.ticket in db.books && LeavesTicketAlone(db.books[request.ticket], planned.effect.change))
      && (!planned.outcome.Wrote? ==> (planned.effect.Write? ==> planned.effect.change.event == NoEvent))
      && (planned.outcome.Wrote? ==> planned.effect.Write?)
      && (planned.outcome.Wrote? <==>
            && key != "" && !OfTask(request.kind) && request.ticket in db.books
            && if HasKey(db.books[request.ticket].events, key)
               then Owns(db, request.ticket, request.run)
                    || (request.run == Some("") && RowHasRun(db.books[request.ticket].events, key))
               else Owns(db, request.ticket, request.run) && |db.books[request.ticket].events| < limit)
  {
    ClassOfKind(request.kind);
    if request.ticket in db.books { KeyIsFound(limit, db.books[request.ticket].events, ItemKey(request.itemKey)); }
    hide EventClassOf, OfTask, MaxSequence, ItemKey, LogOk, HasKey, RowHasRun;
  }

  lemma KeyIsFound(limit: nat, events: seq<Event>, key: string)
    requires LogOk(limit, events)
    ensures FindKey(events, key).Some? <==> HasKey(events, key)
    ensures FindKey(events, key).Some? ==>
              var at := FindKey(events, key).value;
              events[at].eventClass == RunTrace && (events[at].run.Some? <==> RowHasRun(events, key))
  {
    hide Numbered, DistinctIds, TraceCount;
  }

  lemma UpsertIsPlanned(start: map<TicketId, int>, limit: nat, db: Db, request: Request, draw: Draw)
    requires DbOk(start, limit, db) && request.Upsert? && !IdTaken(db, draw.id)
    ensures
      var planned := PlanUpsert(db, limit, request, draw);
      && Execute(db, limit, request, draw) == (if planned.effect.Write? then Apply(db, request, planned.effect.change) else db, planned.outcome)
      && (request.ticket in db.books ==>
            && LogOk(limit, db.books[request.ticket].events)
            && MaxSequence(db.books[request.ticket].events) == |db.books[request.ticket].events|)
  {
    if request.ticket in db.books {
      assert BookOk(start[request.ticket], limit, db, request.ticket);
      MaxOfNumbered(db.books[request.ticket].events);
      UpsertFits(limit, db, request, draw);
    }
    hide IdTaken, EventClassOf, MaxSequence, Apply, DbOk, ItemKey, PlanUpsert, LogOk;
  }

  lemma UpsertFits(limit: nat, db: Db, request: Request, draw: Draw)
    requires request.Upsert? && request.ticket in db.books && !IdTaken(db, draw.id)
    requires MaxSequence(db.books[request.ticket].events) == |db.books[request.ticket].events| && LogOk(limit, db.books[request.ticket].events)
    ensures PlanUpsert(db, limit, request, draw).effect.Write? ==> IndexesAccept(db, request, PlanUpsert(db, limit, request, draw).effect.change)
  {
    hide IdTaken, EventClassOf, MaxSequence, ItemKey, KeyedTraces, DistinctIds, TraceCount;
  }
}
