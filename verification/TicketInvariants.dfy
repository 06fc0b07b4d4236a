/** What every transaction keeps, for any ticket: numbering, trace keys, the cap, acceptances and receipts. */
module TicketInvariants {
  import opened Prelude
  import opened TicketContract
  import opened TicketRows

  // ---------- the event log of one ticket ----------

  ghost predicate Numbered(events: seq<Event>)
  {
    forall i :: 0 <= i < |events| ==> events[i].sequence == i + 1
  }

  ghost predicate DistinctIds(events: seq<Event>)
  {
    forall i, j :: 0 <= i < j < |events| ==> events[i].id != events[j].id
  }

  /** An item key names at most one row, and that row is a run trace. */
  ghost predicate KeyedTraces(events: seq<Event>)
  {
    && (forall i :: 0 <= i < |events| && events[i].key.Some? ==> events[i].eventClass == RunTrace)
    && (forall i, j :: 0 <= i < j < |events| && events[i].key.Some? ==> events[i].key != events[j].key)
  }

  ghost function TraceCount(events: seq<Event>): nat
  {
    if events == [] then 0
    else TraceCount(events[..|events| - 1]) + if events[|events| - 1].eventClass == Lifecycle then 0 else 1
  }

  ghost predicate LogOk(limit: nat, events: seq<Event>)
  {
    Numbered(events) && DistinctIds(events) && KeyedTraces(events) && TraceCount(events) <= limit
  }

  /**
   * How a log may change: rows are never removed or renumbered, a row keeps its id, number, class,
   * item key and time, and only run traces change at all.
   */
  ghost predicate Extends(old_: seq<Event>, new_: seq<Event>)
  {
    && |old_| <= |new_|
    && forall i :: 0 <= i < |old_| ==> RowKept(old_[i], new_[i])
  }

  ghost predicate RowKept(a: Event, b: Event)
  {
    && a.id == b.id && a.sequence == b.sequence && a.eventClass == b.eventClass && a.key == b.key && a.time == b.time
    && (a.eventClass != RunTrace ==> a == b)
  }

  lemma {:induction false} MaxOfNumbered(events: seq<Event>)
    requires Numbered(events)
    ensures MaxSequence(events) == |events|
  {
    if events != [] {
      MaxOfNumbered(events[..|events| - 1]);
    }
  }

  lemma {:induction false} MaxVersionOfNumbered(history: seq<HistoryRow>)
    requires forall i :: 0 <= i < |history| ==> history[i].version == i + 1
    ensures MaxVersion(history) == |history|
  {
    if history != [] {
      MaxVersionOfNumbered(history[..|history| - 1]);
    }
  }

  /** The next number is above every number in use, whatever the numbers are. */
  lemma {:induction false} MaxSequenceIsAbove(events: seq<Event>)
    ensures forall i :: 0 <= i < |events| ==> events[i].sequence <= MaxSequence(events)
  {
    if events != [] {
      MaxSequenceIsAbove(events[..|events| - 1]);
    }
  }

  lemma {:induction false} MaxVersionIsAbove(history: seq<HistoryRow>)
    ensures forall i :: 0 <= i < |history| ==> history[i].version <= MaxVersion(history)
  {
    if history != [] {
      MaxVersionIsAbove(history[..|history| - 1]);
    }
  }

  lemma {:induction false} TraceCountBound(events: seq<Event>)
    ensures TraceCount(events) <= |events|
  {
    if events != [] {
      TraceCountBound(events[..|events| - 1]);
    }
  }

  lemma {:induction false} TraceCountDependsOnClass(a: seq<Event>, b: seq<Event>)
    requires |a| == |b| && forall i :: 0 <= i < |a| ==> a[i].eventClass == b[i].eventClass
    ensures TraceCount(a) == TraceCount(b)
  {
    if a != [] {
      TraceCountDependsOnClass(a[..|a| - 1], b[..|b| - 1]);
    }
  }

  lemma InsertKeepsLog(limit: nat, events: seq<Event>, row: Event)
    requires LogOk(limit, events)
    requires row.sequence == |events| + 1
    requires forall i :: 0 <= i < |events| ==> events[i].id != row.id
    requires row.key.Some? ==> row.eventClass == RunTrace && forall i :: 0 <= i < |events| ==> events[i].key != row.key
    requires row.eventClass == Lifecycle || |events| < limit
    ensures LogOk(limit, events + [row])
    ensures Extends(events, events + [row])
  {
    TraceCountBound(events);
    assert (events + [row])[..|events|] == events;
  }

  lemma KeptRowsKeepLog(limit: nat, a: seq<Event>, b: seq<Event>)
    requires LogOk(limit, a) && |a| == |b| && forall i :: 0 <= i < |a| ==> RowKept(a[i], b[i])
    ensures LogOk(limit, b)
  {
    TraceCountDependsOnClass(a, b);
    forall i, j | 0 <= i < j < |b| ensures b[i].id != b[j].id && (b[i].key.Some? ==> b[i].key != b[j].key) {
      assert RowKept(a[i], b[i]) && RowKept(a[j], b[j]);
    }
  }

  lemma UpdateKeepsLog(limit: nat, events: seq<Event>, at: nat, patch: Patch)
    requires LogOk(limit, events) && at < |events| && events[at].eventClass == RunTrace
    ensures LogOk(limit, UpdateRow(events, events[at].id, patch))
    ensures Extends(events, UpdateRow(events, events[at].id, patch))
  {
    var after := UpdateRow(events, events[at].id, patch);
    forall i | 0 <= i < |events| ensures RowKept(events[i], after[i]) {
      hide KeyedTraces;
      if i < at { assert events[i].id != events[at].id; }
      if at < i { assert events[at].id != events[i].id; }
    }
    KeptRowsKeepLog(limit, events, after);
  }

  // ---------- the acceptance projection and its history ----------

  ghost predicate AcceptanceOk(book: Book)
  {
    && (book.acceptance.Some? <==> book.ticket.status == Completed)
    && (book.ticket.completedAt.Some? <==> book.ticket.status == Completed)
    && (forall i :: 0 <= i < |book.history| ==> book.history[i].version == i + 1)
    && (book.acceptance.Some? ==> book.history != [] && book.history[|book.history| - 1].acceptance == book.acceptance.value)
    && (book.acceptance.Some? ==> book.acceptance.value.at == book.ticket.completedAt.value)
  }

  // ---------- the command receipts ----------

  ghost function KeysOf(db: Db, id: TicketId): set<string>
  {
    set k | k in db.receipts && db.receipts[k].ticket == id
  }

  ghost function KeysOfAction(db: Db, id: TicketId, action: Action): set<string>
  {
    set k | k in db.receipts && db.receipts[k].ticket == id && db.receipts[k].action == action
  }

  /** The receipt's event is in the log, as the lifecycle fact with the receipt's status. */
  ghost predicate EventOf(events: seq<Event>, r: Receipt)
  {
    exists i :: 0 <= i < |events| && Records(events[i], r)
  }

  ghost predicate Records(row: Event, r: Receipt)
  {
    row.id == r.event && row.status == r.status && row.eventClass == Lifecycle
  }

  /** The receipts number the versions the ticket went through, each exactly once. */
  ghost predicate ReceiptVersions(start: int, db: Db, id: TicketId)
    requires id in db.books
  {
    && db.books[id].ticket.version == start + |KeysOf(db, id)|
    && (forall k :: k in KeysOf(db, id) ==> start < db.receipts[k].version <= db.books[id].ticket.version)
    && (forall k, l :: k in KeysOf(db, id) && l in KeysOf(db, id) && k != l ==> db.receipts[k].version != db.receipts[l].version)
  }

  ghost predicate ReceiptBalance(db: Db, id: TicketId)
    requires id in db.books
  {
    |KeysOfAction(db, id, Complete)| - |KeysOfAction(db, id, Reopen)| == if db.books[id].ticket.status == Completed then 1 else 0
  }

  ghost predicate ReceiptEvents(db: Db, id: TicketId)
    requires id in db.books
  {
    forall k :: k in KeysOf(db, id) ==> EventOf(db.books[id].events, db.receipts[k])
  }

  ghost predicate ReceiptsOk(start: int, db: Db, id: TicketId)
    requires id in db.books
  {
    ReceiptVersions(start, db, id) && ReceiptBalance(db, id) && ReceiptEvents(db, id)
  }

  // ---------- the whole database ----------

  ghost predicate SameIds<A, B>(a: map<TicketId, A>, b: map<TicketId, B>)
  {
    forall id :: id in a <==> id in b
  }

  /** `start` holds the version each ticket began with. */
  ghost predicate DbOk(start: map<TicketId, int>, limit: nat, db: Db)
  {
    && SameIds(db.books, start)
    && (forall k :: k in db.receipts ==> db.receipts[k].ticket in db.books)
    && AllBooksOk(start, limit, db)
  }

  ghost predicate BookOk(start: int, limit: nat, db: Db, id: TicketId)
    requires id in db.books
  {
    LogOk(limit, db.books[id].events) && AcceptanceOk(db.books[id]) && ReceiptsOk(start, db, id)
  }

  /** A database before any lifecycle command: no completed ticket, no acceptance, no receipt. */
  ghost predicate Untouched(limit: nat, db: Db)
  {
    && db.receipts == map[]
    && forall id :: id in db.books ==>
         && LogOk(limit, db.books[id].events)
         && db.books[id].ticket.status != Completed && db.books[id].ticket.completedAt.None?
         && db.books[id].acceptance.None? && db.books[id].history == []
  }

  ghost function Versions(db: Db): map<TicketId, int>
  {
    map id | id in db.books :: db.books[id].ticket.version
  }

  lemma UntouchedIsOk(limit: nat, db: Db)
    requires Untouched(limit, db)
    ensures DbOk(Versions(db), limit, db)
  {
    forall id | id in db.books
      ensures BookOk(Versions(db)[id], limit, db, id)
    {
      assert KeysOf(db, id) == {};
      assert KeysOfAction(db, id, Complete) == {};
      assert KeysOfAction(db, id, Reopen) == {};
    }
  }

  /** How one committed transaction may change the database. */
  ghost predicate Step(before: Db, after: Db)
  {
    && SameIds(before.books, after.books)
    && before.runs == after.runs
    && (forall k :: k in before.receipts ==> k in after.receipts && after.receipts[k] == before.receipts[k])
    && (forall id :: id in before.books ==> BookStep(before.books[id], after.books[id]))
  }

  ghost predicate BookStep(before: Book, after: Book)
  {
    && Extends(before.events, after.events)
    && before.history <= after.history
    && before.ticket.version <= after.ticket.version
    && (before.ticket.status in {Cancelled, Failed} ==> after.ticket == before.ticket)
  }

  // ---------- what a plan that writes looks like ----------

  ghost predicate EventFits(limit: nat, events: seq<Event>, write: EventWrite)
  {
    match write
    case NoEvent => true
    case Insert(row) =>
      && row.sequence == |events| + 1
      && (row.key.Some? ==> row.eventClass == RunTrace && forall i :: 0 <= i < |events| ==> events[i].key != row.key)
      && (row.eventClass == Lifecycle || |events| < limit)
    case Update(id, _) => exists at :: 0 <= at < |events| && events[at].id == id && events[at].eventClass == RunTrace
  }

  ghost predicate LeavesTicketAlone(book: Book, change: Change)
  {
    change.ticket == book.ticket && change.acceptance == Keep && change.history.None? && change.receipt.None?
  }

  /** The change a formal transition makes, given what it read. */
  ghost predicate Transitions(book: Book, c: Command, draw: Draw, change: Change)
  {
    && c.action in AllowedActions(book.ticket.status)
    && book.ticket.version == c.expectedVersion
    && change.ticket == NextTicket(book.ticket, c.action, draw.now)
    && change.event.Insert? && change.event.row == LifecycleEvent(c, MaxSequence(book.events) + 1, draw)
    && change.receipt == Some(Receipt(c.ticket, c.action, NextStatus(c.action), book.ticket.version + 1, draw.id))
    && match c.action {
         case Complete =>
           && change.acceptance == Put(Acceptance(draw.id, draw.now, book.ticket.owner, c.actor, c.evidence))
           && change.history == Some(HistoryRow(MaxVersion(book.history) + 1, change.acceptance.row))
         case Reopen => change.acceptance == Delete && change.history.None?
         case _ => change.acceptance == Keep && change.history.None?
       }
  }

  lemma TransitionShape(limit: nat, db: Db, c: Command, draw: Draw)
    requires PlanTransition(db, c, draw).effect.Write?
    requires c.ticket in db.books ==> LogOk(limit, db.books[c.ticket].events) && AcceptanceOk(db.books[c.ticket])
    ensures c.ticket in db.books && c.key !in db.receipts
    ensures Transitions(db.books[c.ticket], c, draw, PlanTransition(db, c, draw).effect.change)
    ensures EventFits(limit, db.books[c.ticket].events, PlanTransition(db, c, draw).effect.change.event)
    ensures PlanTransition(db, c, draw).outcome == Done(PlanTransition(db, c, draw).effect.change.receipt.value)
  {
    MaxOfNumbered(db.books[c.ticket].events);
  }

  lemma AppendShape(limit: nat, db: Db, request: Request, draw: Draw)
    requires request.Append? && PlanAppend(db, limit, request, draw).effect.Write?
    requires request.ticket in db.books ==> LogOk(limit, db.books[request.ticket].events)
    ensures request.ticket in db.books
    ensures LeavesTicketAlone(db.books[request.ticket], PlanAppend(db, limit, request, draw).effect.change)
    ensures EventFits(limit, db.books[request.ticket].events, PlanAppend(db, limit, request, draw).effect.change.event)
  {
    MaxOfNumbered(db.books[request.ticket].events);
  }

  lemma UpsertShape(limit: nat, db: Db, request: Request, draw: Draw)
    requires request.Upsert? && PlanUpsert(db, limit, request, draw).effect.Write?
    requires request.ticket in db.books ==> LogOk(limit, db.books[request.ticket].events)
    ensures request.ticket in db.books
    ensures LeavesTicketAlone(db.books[request.ticket], PlanUpsert(db, limit, request, draw).effect.change)
    ensures EventFits(limit, db.books[request.ticket].events, PlanUpsert(db, limit, request, draw).effect.change.event)
  {
    MaxOfNumbered(db.books[request.ticket].events);
  }

  /** Either shape of a change, for the request that made it. */
  ghost predicate Shaped(limit: nat, db: Db, request: Request, draw: Draw, change: Change)
  {
    && Target(request) in db.books
    && EventFits(limit, db.books[Target(request)].events, change.event)
    && if request.Transition?
       then Transitions(db.books[Target(request)], request.command, draw, change) && request.command.key !in db.receipts
       else LeavesTicketAlone(db.books[Target(request)], change)
  }

  lemma PlanShaped(start: map<TicketId, int>, limit: nat, db: Db, request: Request, draw: Draw)
    requires DbOk(start, limit, db)
    requires Plan(db, limit, request, draw).effect.Write?
    ensures Target(request) in db.books
    ensures Shaped(limit, db, request, draw, Plan(db, limit, request, draw).effect.change)
  {
    var id := Target(request);
    assert id in db.books ==> BookOk(start[id], limit, db, id);
    match request {
      case Transition(c) => TransitionShape(limit, db, c, draw);
      case Append(_, _, _, _, _, _) => AppendShape(limit, db, request, draw);
      case Upsert(_, _, _, _, _, _, _) => UpsertShape(limit, db, request, draw);
    }
  }

  // ---------- what such a change keeps ----------

  lemma ChangeKeepsLog(limit: nat, book: Book, change: Change)
    requires LogOk(limit, book.events) && EventFits(limit, book.events, change.event)
    requires change.event.Insert? ==> forall i :: 0 <= i < |book.events| ==> book.events[i].id != change.event.row.id
    ensures LogOk(limit, ApplyBook(book, change).events)
    ensures Extends(book.events, ApplyBook(book, change).events)
  {
    match change.event {
      case NoEvent =>
      case Insert(row) => InsertKeepsLog(limit, book.events, row);
      case Update(id, patch) =>
        var at :| 0 <= at < |book.events| && book.events[at].id == id && book.events[at].eventClass == RunTrace;
        UpdateKeepsLog(limit, book.events, at, patch);
    }
  }

  lemma ShapedKeepsLog(start: map<TicketId, int>, limit: nat, db: Db, request: Request, draw: Draw, change: Change)
    requires DbOk(start, limit, db) && Target(request) in db.books && Shaped(limit, db, request, draw, change)
    requires SharedKeysAccept(db, request, change)
    ensures LogOk(limit, ApplyBook(db.books[Target(request)], change).events)
    ensures Extends(db.books[Target(request)].events, ApplyBook(db.books[Target(request)], change).events)
  {
    var id := Target(request);
    assert BookOk(start[id], limit, db, id);
    if change.event.Insert? {
      forall i | 0 <= i < |db.books[id].events| ensures db.books[id].events[i].id != change.event.row.id {
        assert !IdTaken(db, change.event.row.id);
      }
    }
    ChangeKeepsLog(limit, db.books[id], change);
  }

  /** The keys of a ticket, and their receipts, are the same in both databases. */
  ghost predicate SameReceipts(db: Db, after: Db, id: TicketId)
  {
    && (forall k :: k in db.receipts && db.receipts[k].ticket == id ==> k in after.receipts && after.receipts[k] == db.receipts[k])
    && (forall k :: k in after.receipts && after.receipts[k].ticket == id ==> k in db.receipts && after.receipts[k] == db.receipts[k])
  }

  lemma SameKeys(db: Db, after: Db, id: TicketId)
    requires SameReceipts(db, after, id)
    ensures KeysOf(after, id) == KeysOf(db, id)
    ensures forall action :: KeysOfAction(after, id, action) == KeysOfAction(db, id, action)
  {
    forall action ensures KeysOfAction(after, id, action) == KeysOfAction(db, id, action) {
    }
  }

  lemma ReceiptEventsExtended(db: Db, after: Db, id: TicketId)
    requires id in db.books && id in after.books && ReceiptEvents(db, id)
    requires Extends(db.books[id].events, after.books[id].events)
    requires SameReceipts(db, after, id)
    ensures ReceiptEvents(after, id)
  {
    SameKeys(db, after, id);
    forall k | k in KeysOf(after, id) ensures EventOf(after.books[id].events, after.receipts[k]) {
      EventOfExtended(db.books[id].events, after.books[id].events, db.receipts[k]);
    }
  }

  lemma ReceiptsStayOk(start: int, db: Db, after: Db, id: TicketId)
    requires id in db.books && id in after.books && ReceiptsOk(start, db, id)
    requires after.books[id].ticket == db.books[id].ticket
    requires Extends(db.books[id].events, after.books[id].events)
    requires SameReceipts(db, after, id)
    ensures ReceiptsOk(start, after, id)
  {
    ReceiptEventsExtended(db, after, id);
    SameKeys(db, after, id);
  }

  /** A ticket that a transaction does not target keeps its book. */
  lemma OtherBookKept(start: int, limit: nat, db: Db, after: Db, id: TicketId)
    requires id in db.books && BookOk(start, limit, db, id)
    requires id in after.books && after.books[id] == db.books[id] && SameReceipts(db, after, id)
    ensures BookOk(start, limit, after, id) && BookStep(db.books[id], after.books[id])
  {
    ReceiptsStayOk(start, db, after, id);
  }

  lemma WriterKeepsBook(start: map<TicketId, int>, limit: nat, db: Db, request: Request, draw: Draw, change: Change)
    requires DbOk(start, limit, db) && Shaped(limit, db, request, draw, change) && !request.Transition?
    requires SharedKeysAccept(db, request, change)
    ensures BookOk(start[Target(request)], limit, Apply(db, request, change), Target(request))
    ensures BookStep(db.books[Target(request)], ApplyBook(db.books[Target(request)], change))
  {
    var id := Target(request);
    assert BookOk(start[id], limit, db, id);
    ShapedKeepsLog(start, limit, db, request, draw, change);
    ReceiptsStayOk(start[id], db, Apply(db, request, change), id);
  }

  lemma ApplyFrame(db: Db, request: Request, change: Change, id: TicketId)
    requires Target(request) in db.books && id in db.books && id != Target(request)
    requires change.receipt.Some? ==> change.receipt.value.ticket == Target(request)
    requires change.receipt.Some? && request.Transition? ==> request.command.key !in db.receipts
    ensures Apply(db, request, change).books[id] == db.books[id]
    ensures SameReceipts(db, Apply(db, request, change), id)
  {
  }

  lemma OtherBooksKept(start: map<TicketId, int>, limit: nat, db: Db, request: Request, change: Change, id: TicketId)
    requires DbOk(start, limit, db) && Target(request) in db.books && id in db.books && id != Target(request)
    requires change.receipt.Some? ==> change.receipt.value.ticket == Target(request)
    requires change.receipt.Some? && request.Transition? ==> request.command.key !in db.receipts
    ensures BookOk(start[id], limit, Apply(db, request, change), id)
    ensures BookStep(db.books[id], Apply(db, request, change).books[id])
  {
    ApplyFrame(db, request, change, id);
    OtherBookKept(start[id], limit, db, Apply(db, request, change), id);
  }

  ghost predicate AllBooksOk(start: map<TicketId, int>, limit: nat, db: Db)
    requires SameIds(db.books, start)
  {
    forall id :: id in db.books ==> BookOk(start[id], limit, db, id)
  }

  lemma ApplyKeepsBooks(start: map<TicketId, int>, limit: nat, db: Db, request: Request, change: Change)
    requires DbOk(start, limit, db) && Target(request) in db.books
    requires change.receipt.Some? && request.Transition? ==> request.command.key !in db.receipts
    requires change.receipt.Some? ==> change.receipt.value.ticket == Target(request)
    requires BookOk(start[Target(request)], limit, Apply(db, request, change), Target(request))
    ensures AllBooksOk(start, limit, Apply(db, request, change))
  {
    var after := Apply(db, request, change);
    forall id | id in after.books ensures BookOk(start[id], limit, after, id) {
      if id != Target(request) { OtherBooksKept(start, limit, db, request, change, id); }
    }
  }

  lemma BookStepReflexive(book: Book)
    ensures BookStep(book, book)
  {
  }

  lemma ApplySteps(db: Db, request: Request, change: Change)
    requires Target(request) in db.books
    requires change.receipt.Some? && request.Transition? ==> request.command.key !in db.receipts
    requires BookStep(db.books[Target(request)], ApplyBook(db.books[Target(request)], change))
    ensures Step(db, Apply(db, request, change))
  {
    var after := Apply(db, request, change);
    forall id | id in db.books ensures BookStep(db.books[id], after.books[id]) {
      if id != Target(request) { BookStepReflexive(db.books[id]); }
    }
  }

  lemma EventOfExtended(before: seq<Event>, after: seq<Event>, r: Receipt)
    requires Extends(before, after) && EventOf(before, r)
    ensures EventOf(after, r)
  {
    var i :| 0 <= i < |before| && Records(before[i], r);
    assert RowKept(before[i], after[i]) && Records(after[i], r);
  }

  lemma KeyCount(db: Db, after: Db, key: string, r: Receipt)
    requires key !in db.receipts && after.receipts == db.receipts[key := r]
    ensures KeysOf(after, r.ticket) == KeysOf(db, r.ticket) + {key}
    ensures |KeysOf(after, r.ticket)| == |KeysOf(db, r.ticket)| + 1
  {
  }

  lemma ActionCount(db: Db, after: Db, key: string, r: Receipt, action: Action)
    requires key !in db.receipts && after.receipts == db.receipts[key := r]
    ensures |KeysOfAction(after, r.ticket, action)| == |KeysOfAction(db, r.ticket, action)| + if action == r.action then 1 else 0
  {
    if action == r.action {
      assert KeysOfAction(after, r.ticket, action) == KeysOfAction(db, r.ticket, action) + {key};
    } else {
      assert KeysOfAction(after, r.ticket, action) == KeysOfAction(db, r.ticket, action);
    }
  }

  lemma TransitionKeepsAcceptance(book: Book, c: Command, draw: Draw, change: Change)
    requires AcceptanceOk(book) && Transitions(book, c, draw, change)
    ensures AcceptanceOk(ApplyBook(book, change))
    ensures book.history <= ApplyBook(book, change).history
    ensures book.ticket.status !in {Cancelled, Failed}
  {
    hide LifecycleEvent;
    AllowedActionsMeaning(book.ticket.status, c.action);
    MaxVersionOfNumbered(book.history);
  }

  lemma TransitionKeepsVersions(start: int, db: Db, c: Command, draw: Draw, change: Change)
    requires c.ticket in db.books && ReceiptVersions(start, db, c.ticket)
    requires Transitions(db.books[c.ticket], c, draw, change) && c.key !in db.receipts
    ensures ReceiptVersions(start, Apply(db, Transition(c), change), c.ticket)
  {
    hide LifecycleEvent;
    hide AllowedActions;
    KeyCount(db, Apply(db, Transition(c), change), c.key, change.receipt.value);
  }

  lemma TransitionKeepsBalance(db: Db, c: Command, draw: Draw, change: Change)
    requires c.ticket in db.books && ReceiptBalance(db, c.ticket)
    requires Transitions(db.books[c.ticket], c, draw, change) && c.key !in db.receipts
    ensures ReceiptBalance(Apply(db, Transition(c), change), c.ticket)
  {
    hide LifecycleEvent;
    hide AllowedActions;
    AllowedActionsMeaning(db.books[c.ticket].ticket.status, c.action);
    var after := Apply(db, Transition(c), change);
    ActionCount(db, after, c.key, change.receipt.value, Complete);
    ActionCount(db, after, c.key, change.receipt.value, Reopen);
  }

  lemma TransitionKeepsReceiptEvents(db: Db, c: Command, draw: Draw, change: Change)
    requires c.ticket in db.books && ReceiptEvents(db, c.ticket)
    requires Transitions(db.books[c.ticket], c, draw, change) && c.key !in db.receipts
    ensures ReceiptEvents(Apply(db, Transition(c), change), c.ticket)
  {
    var before := db.books[c.ticket].events;
    var after := Apply(db, Transition(c), change);
    assert Records((before + [change.event.row])[|before|], change.receipt.value);
    forall k | k in KeysOf(after, c.ticket) ensures EventOf(after.books[c.ticket].events, after.receipts[k]) {
      if k != c.key {
        assert k in KeysOf(db, c.ticket);
        EventOfExtended(before, before + [change.event.row], db.receipts[k]);
      }
    }
  }

  lemma TransitionKeepsBook(start: map<TicketId, int>, limit: nat, db: Db, c: Command, draw: Draw, change: Change)
    requires DbOk(start, limit, db) && Shaped(limit, db, Transition(c), draw, change)
    requires SharedKeysAccept(db, Transition(c), change)
    ensures BookOk(start[c.ticket], limit, Apply(db, Transition(c), change), c.ticket)
    ensures BookStep(db.books[c.ticket], ApplyBook(db.books[c.ticket], change))
  {
    ShapedKeepsLog(start, limit, db, Transition(c), draw, change);
    assert BookOk(start[c.ticket], limit, db, c.ticket);
    TransitionKeepsVersions(start[c.ticket], db, c, draw, change);
    TransitionKeepsBalance(db, c, draw, change);
    TransitionKeepsReceiptEvents(db, c, draw, change);
    TransitionKeepsAcceptance(db.books[c.ticket], c, draw, change);
  }

  lemma ShapedKeepsBook(start: map<TicketId, int>, limit: nat, db: Db, request: Request, draw: Draw, change: Change)
    requires DbOk(start, limit, db) && Target(request) in db.books && Shaped(limit, db, request, draw, change)
    requires SharedKeysAccept(db, request, change)
    ensures BookOk(start[Target(request)], limit, Apply(db, request, change), Target(request))
    ensures BookStep(db.books[Target(request)], ApplyBook(db.books[Target(request)], change))
  {
    if request.Transition? {
      TransitionKeepsBook(start, limit, db, request.command, draw, change);
    } else {
      WriterKeepsBook(start, limit, db, request, draw, change);
    }
  }

  lemma ReceiptIsForTarget(limit: nat, db: Db, request: Request, draw: Draw, change: Change)
    requires Shaped(limit, db, request, draw, change)
    ensures change.receipt.Some? ==> change.receipt.value.ticket == Target(request)
    ensures change.receipt.Some? && request.Transition? ==> request.command.key !in db.receipts
  {
    hide EventFits;
  }

  lemma ShapedChangeKeepsOk(start: map<TicketId, int>, limit: nat, db: Db, request: Request, draw: Draw, change: Change)
    requires DbOk(start, limit, db) && Target(request) in db.books && Shaped(limit, db, request, draw, change)
    requires SharedKeysAccept(db, request, change)
    ensures DbOk(start, limit, Apply(db, request, change))
  {
    hide Shaped;
    hide BookOk;
    hide SharedKeysAccept;
    ReceiptIsForTarget(limit, db, request, draw, change);
    ShapedKeepsBook(start, limit, db, request, draw, change);
    ApplyKeepsBooks(start, limit, db, request, change);
  }

  lemma ShapedChangeSteps(start: map<TicketId, int>, limit: nat, db: Db, request: Request, draw: Draw, change: Change)
    requires DbOk(start, limit, db) && Target(request) in db.books && Shaped(limit, db, request, draw, change)
    requires SharedKeysAccept(db, request, change)
    ensures Step(db, Apply(db, request, change))
  {
    hide Shaped;
    hide BookOk;
    hide BookStep;
    hide SharedKeysAccept;
    ReceiptIsForTarget(limit, db, request, draw, change);
    ShapedKeepsBook(start, limit, db, request, draw, change);
    ApplySteps(db, request, change);
  }

  lemma StepReflexive(db: Db)
    ensures Step(db, db)
  {
  }

  lemma CommitKeepsOk(start: map<TicketId, int>, limit: nat, db: Db, request: Request, draw: Draw, planned: Planned)
    requires DbOk(start, limit, db)
    requires planned.effect.Write? && Target(request) in db.books
    requires Shaped(limit, db, request, draw, planned.effect.change)
    ensures DbOk(start, limit, Commit(db, request, planned).0)
  {
    hide Shaped;
    hide DbOk;
    hide IdTaken;
    if IndexesAccept(db, request, planned.effect.change) {
      ShapedChangeKeepsOk(start, limit, db, request, draw, planned.effect.change);
    }
  }

  lemma CommitSteps(start: map<TicketId, int>, limit: nat, db: Db, request: Request, draw: Draw, planned: Planned)
    requires DbOk(start, limit, db)
    requires planned.effect.Write? && Target(request) in db.books
    requires Shaped(limit, db, request, draw, planned.effect.change)
    ensures Step(db, Commit(db, request, planned).0)
  {
    hide Shaped;
    hide DbOk;
    hide Step;
    hide IdTaken;
    if IndexesAccept(db, request, planned.effect.change) {
      ShapedChangeSteps(start, limit, db, request, draw, planned.effect.change);
    } else {
      StepReflexive(db);
    }
  }

  /** Every request, run alone, keeps the invariant and changes the database only as `Step` allows. */
  lemma ExecuteKeepsAll(start: map<TicketId, int>, limit: nat, db: Db, request: Request, draw: Draw)
    requires DbOk(start, limit, db)
    ensures DbOk(start, limit, Execute(db, limit, request, draw).0)
    ensures Step(db, Execute(db, limit, request, draw).0)
  {
    hide Shaped;
    hide DbOk;
    hide Step;
    hide Plan;
    hide IndexesAccept;
    var planned := Plan(db, limit, request, draw);
    if planned.effect.Write? {
      PlanShaped(start, limit, db, request, draw);
      CommitKeepsOk(start, limit, db, request, draw, planned);
      CommitSteps(start, limit, db, request, draw, planned);
    } else {
      StepReflexive(db);
    }
  }
}
