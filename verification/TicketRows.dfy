/**
 * The rows a ticket owns, and what one transaction reads and writes.
 *
 * A transaction is split as PostgreSQL runs it: `Plan` reads a database (its snapshot) and decides
 * on row-level writes; `Commit` applies those writes to the database as it is at commit time,
 * provided no unique index objects.
 */
module TicketRows {
  import opened Prelude
  import opened TicketContract

  type EventId = string
  type Time = int

  datatype EventClass = Lifecycle | RunTrace | Legacy

  /** Displayed text: a caller's, or the fixed wording that belongs to a lifecycle action. */
  datatype Wording = Standard(action: Action) | Text(text: string)

  datatype Event = Event(
    id: EventId,
    run: Option<string>,
    sequence: int,
    kind: string,
    eventClass: EventClass,
    title: Wording,
    status: Status,
    summary: Option<Wording>,
    key: Option<string>,
    time: Time)

  datatype Ticket = Ticket(owner: string, status: Status, completedAt: Option<Time>, version: int)

  datatype Acceptance = Acceptance(event: EventId, at: Time, owner: string, acceptedBy: string, evidence: Evidence)

  datatype HistoryRow = HistoryRow(version: int, acceptance: Acceptance)

  datatype Receipt = Receipt(ticket: TicketId, action: Action, status: Status, version: int, event: EventId)

  /** Every row that carries one ticket's id. */
  datatype Book = Book(
    ticket: Ticket,
    events: seq<Event>,
    acceptance: Option<Acceptance>,
    history: seq<HistoryRow>)

  datatype Db = Db(books: map<TicketId, Book>, receipts: map<string, Receipt>, runs: map<string, TicketId>)

  /** The random id and the clock reading a transaction uses. */
  datatype Draw = Draw(id: EventId, now: Time)

  datatype Request =
    | Transition(command: Command)
    | Append(ticket: TicketId, run: Option<string>, kind: string, title: string, status: Status, summary: Option<string>)
    | Upsert(ticket: TicketId, run: Option<string>, itemKey: string, kind: string, title: string, status: Status, summary: Option<string>)

  datatype Outcome =
    | Done(receipt: Receipt)
    | Replayed(receipt: Receipt)
    | Wrote(event: Event)
    | Skipped
    | Refused(fault: Fault)

  /** The columns that the in-place update of a trace row assigns. */
  datatype Patch = Patch(kind: string, title: Wording, status: Status, summary: Option<Wording>, run: Option<string>)

  datatype EventWrite = NoEvent | Insert(row: Event) | Update(id: EventId, patch: Patch)

  datatype AcceptanceWrite = Keep | Put(row: Acceptance) | Delete

  datatype Change = Change(
    ticket: Ticket,
    event: EventWrite,
    acceptance: AcceptanceWrite,
    history: Option<HistoryRow>,
    receipt: Option<Receipt>)

  datatype Effect = Nothing | Write(change: Change)

  datatype Planned = Planned(effect: Effect, outcome: Outcome)

  // ---------- classification and numbering ----------

  function EventClassOf(kind: string): EventClass
  {
    if kind == "task.completed" || kind == "task.failed" then Legacy
    else if "task." <= kind then Lifecycle
    else RunTrace
  }

  function LifecycleKind(action: Action): string
  {
    match action
    case Complete => "task.accepted"
    case Accept => "task.claimed"
    case Reopen => "task.reopened"
    case Cancel => "task.cancelled"
  }

  /** The cancel command's own summary when no reason is given; the other actions have fixed wording. */
  function LifecycleSummary(c: Command): Wording
  {
    match c.action
    case Complete => Standard(Complete)
    case Accept => Standard(Accept)
    case Reopen => Text(Clip(c.reason, 1000))
    case Cancel => if c.reason == "" then Standard(Cancel) else Text(Clip(c.reason, 1000))
  }

  /** The class written by hand on lifecycle rows is the class their event type has anyway. */
  lemma LifecycleKindsAreLifecycle(action: Action)
    ensures EventClassOf(LifecycleKind(action)) == Lifecycle
  {
    var kind := LifecycleKind(action);
    assert "task."[0] == kind[0] && "task."[1] == kind[1] && "task."[2] == kind[2] && "task."[3] == kind[3] && "task."[4] == kind[4];
    assert kind[..5] == "task.";
    assert kind != "task.failed" by { assert kind[5] != 'f'; }
    assert kind != "task.completed" by { assert kind[6] != 'o'; }
  }

  /** COALESCE(MAX(sequence), 0). */
  function MaxSequence(events: seq<Event>): int
  {
    if events == [] then 0
    else
      var before := MaxSequence(events[..|events| - 1]);
      var last := events[|events| - 1].sequence;
      if last > before then last else before
  }

  /** COALESCE(MAX(acceptance_version), 0). */
  function MaxVersion(history: seq<HistoryRow>): int
  {
    if history == [] then 0
    else
      var before := MaxVersion(history[..|history| - 1]);
      var last := history[|history| - 1].version;
      if last > before then last else before
  }

  function Summary(text: Option<string>): Option<Wording>
  {
    if text.None? || text.value == "" then None else Some(Text(Clip(text.value, 1000)))
  }

  /** The run named by a writer, when it names one, must belong to the ticket. */
  predicate RunBelongs(db: Db, ticket: TicketId, run: Option<string>)
  {
    run.None? || run.value == "" || (run.value in db.runs && db.runs[run.value] == ticket)
  }

  /** The foreign key on a row's run. No run has the empty id, so a row that names it is refused. */
  predicate RunStored(db: Db, run: Option<string>)
  {
    run.None? || (run.value != "" && run.value in db.runs)
  }

  function ItemKey(text: string): string
  {
    Clip(Trim(text), 120)
  }

  /** The first row of the ticket with this item key. */
  function FindKey(events: seq<Event>, key: string): (found: Option<nat>)
    ensures found.Some? ==> found.value < |events| && events[found.value].key == Some(key)
    ensures found.None? ==> forall i :: 0 <= i < |events| ==> events[i].key != Some(key)
  {
    if events == [] then None
    else
      var earlier := FindKey(events[..|events| - 1], key);
      if earlier.Some? then earlier
      else if events[|events| - 1].key == Some(key) then Some(|events| - 1)
      else None
  }

  // ---------- what each transaction decides ----------

  function Target(request: Request): TicketId
  {
    match request
    case Transition(c) => c.ticket
    case _ => request.ticket
  }

  function Plan(db: Db, limit: nat, request: Request, draw: Draw): Planned
  {
    match request
    case Transition(c) => PlanTransition(db, c, draw)
    case Append(_, _, _, _, _, _) => PlanAppend(db, limit, request, draw)
    case Upsert(_, _, _, _, _, _, _) => PlanUpsert(db, limit, request, draw)
  }

  function PlanTransition(db: Db, c: Command, draw: Draw): Planned
  {
    var complaint := Validate(c);
    if complaint.Some? then Planned(Nothing, Refused(complaint.value))
    else if c.ticket !in db.books then Planned(Nothing, Refused(TaskNotFound))
    else if c.key in db.receipts then
      var r := db.receipts[c.key];
      Planned(Nothing, if r.ticket != c.ticket || r.action != c.action then Refused(KeyReused) else Replayed(r))
    else
      var book := db.books[c.ticket];
      var current := if book.ticket.version == 0 then 1 else book.ticket.version;
      if current != c.expectedVersion then Planned(Nothing, Refused(VersionConflict))
      else if c.action !in AllowedActions(book.ticket.status) then Planned(Nothing, Refused(ActionNotAllowed))
      else if book.ticket.version != c.expectedVersion then Planned(Nothing, Refused(VersionConflict))
      else
        var ticket := NextTicket(book.ticket, c.action, draw.now);
        var receipt := Receipt(c.ticket, c.action, ticket.status, ticket.version, draw.id);
        var acceptance := Acceptance(draw.id, draw.now, book.ticket.owner, c.actor, c.evidence);
        Planned(
          Write(Change(
            ticket,
            Insert(LifecycleEvent(c, MaxSequence(book.events) + 1, draw)),
            if c.action == Complete then Put(acceptance) else if c.action == Reopen then Delete else Keep,
            if c.action == Complete then Some(HistoryRow(MaxVersion(book.history) + 1, acceptance)) else None,
            Some(receipt))),
          Done(receipt))
  }

  function NextTicket(ticket: Ticket, action: Action, now: Time): Ticket
  {
    var status := NextStatus(action);
    ticket.(
      status := status,
      completedAt := if status == Completed then Some(now) else if status == Pending then None else ticket.completedAt,
      version := ticket.version + 1)
  }

  function LifecycleEvent(c: Command, sequence: int, draw: Draw): Event
  {
    Event(draw.id, None, sequence, LifecycleKind(c.action), Lifecycle, Standard(c.action),
          NextStatus(c.action), Some(LifecycleSummary(c)), None, draw.now)
  }

  function PlanAppend(db: Db, limit: nat, request: Request, draw: Draw): Planned
    requires request.Append?
  {
    if request.ticket !in db.books || !RunBelongs(db, request.ticket, request.run) then Planned(Nothing, Skipped)
    else
      var book := db.books[request.ticket];
      var eventClass := EventClassOf(request.kind);
      if eventClass != Lifecycle && |book.events| >= limit then Planned(Touch(book), Skipped)
      else if !RunStored(db, request.run) then Planned(Nothing, Skipped)
      else
        var row := Event(draw.id, request.run, MaxSequence(book.events) + 1, request.kind, eventClass,
                         Text(Clip(request.title, 160)), request.status, Summary(request.summary), None, draw.now);
        Planned(Write(Change(book.ticket, Insert(row), Keep, None, None)), Wrote(row))
  }

  function PlanUpsert(db: Db, limit: nat, request: Request, draw: Draw): Planned
    requires request.Upsert?
  {
    var key := ItemKey(request.itemKey);
    if key == "" then Planned(Nothing, Skipped)
    else if EventClassOf(request.kind) != RunTrace then Planned(Nothing, Refused(NotARunTrace))
    else if request.ticket !in db.books || !RunBelongs(db, request.ticket, request.run) then Planned(Nothing, Skipped)
    else
      var book := db.books[request.ticket];
      var found := FindKey(book.events, key);
      var title := Text(Clip(request.title, 160));
      if found.Some? then
        var row := book.events[found.value];
        if row.eventClass != RunTrace then Planned(Nothing, Refused(ImmutableEvent))
        else if row.run.None? && !RunStored(db, request.run) then Planned(Nothing, Skipped)
        else
          var patch := Patch(request.kind, title, request.status, Summary(request.summary), request.run);
          Planned(Write(Change(book.ticket, Update(row.id, patch), Keep, None, None)), Wrote(Answered(row, patch)))
      else if |book.events| >= limit then Planned(Touch(book), Skipped)
      else if !RunStored(db, request.run) then Planned(Nothing, Skipped)
      else
        var row := Event(draw.id, request.run, MaxSequence(book.events) + 1, request.kind, RunTrace,
                         title, request.status, Summary(request.summary), Some(key), draw.now);
        Planned(Write(Change(book.ticket, Insert(row), Keep, None, None)), Wrote(row))
  }

  /** The value-preserving update of the ticket row, with nothing else. */
  function Touch(book: Book): Effect
  {
    Write(Change(book.ticket, NoEvent, Keep, None, None))
  }

  /** The stored row after the update: `run_id` keeps its old value when it has one. */
  function Patched(row: Event, patch: Patch): Event
  {
    row.(kind := patch.kind, title := patch.title, status := patch.status, summary := patch.summary,
         run := if row.run.Some? then row.run else patch.run)
  }

  /** The row handed back to the caller: its run is the caller's, since the old one was not selected. */
  function Answered(row: Event, patch: Patch): Event
  {
    Patched(row, patch).(run := if patch.run.Some? && patch.run.value != "" then patch.run else None)
  }

  // ---------- applying the writes ----------

  function UpdateRow(events: seq<Event>, id: EventId, patch: Patch): (r: seq<Event>)
    ensures |r| == |events|
    ensures forall i :: 0 <= i < |r| ==> r[i] == if events[i].id == id then Patched(events[i], patch) else events[i]
  {
    if events == [] then []
    else
      var last := events[|events| - 1];
      UpdateRow(events[..|events| - 1], id, patch) + [if last.id == id then Patched(last, patch) else last]
  }

  function ApplyBook(book: Book, change: Change): Book
  {
    Book(
      change.ticket,
      match change.event {
        case NoEvent => book.events
        case Insert(row) => book.events + [row]
        case Update(id, patch) => UpdateRow(book.events, id, patch)
      },
      match change.acceptance {
        case Keep => book.acceptance
        case Put(row) => Some(row)
        case Delete => None
      },
      if change.history.Some? then book.history + [change.history.value] else book.history)
  }

  function Apply(db: Db, request: Request, change: Change): (r: Db)
    requires Target(request) in db.books
    ensures r.books.Keys == db.books.Keys
  {
    var id := Target(request);
    var receipts := if change.receipt.Some? && request.Transition?
                    then db.receipts[request.command.key := change.receipt.value] else db.receipts;
    db.(books := db.books[id := ApplyBook(db.books[id], change)], receipts := receipts)
  }

  ghost predicate IdTaken(db: Db, id: EventId)
  {
    exists t, i :: t in db.books && 0 <= i < |db.books[t].events| && db.books[t].events[i].id == id
  }

  /** The unique indexes that belong to one ticket: its event numbers, item keys and acceptance versions. */
  ghost predicate TicketIndexesAccept(book: Book, change: Change)
  {
    && (change.event.Insert? ==>
          forall i :: 0 <= i < |book.events| ==>
            && book.events[i].sequence != change.event.row.sequence
            && (change.event.row.key.Some? ==> book.events[i].key != change.event.row.key))
    && (change.history.Some? ==>
          forall i :: 0 <= i < |book.history| ==> book.history[i].version != change.history.value.version)
  }

  /** The primary keys shared by all tickets: event ids and command keys. */
  ghost predicate SharedKeysAccept(db: Db, request: Request, change: Change)
  {
    && (change.event.Insert? ==> !IdTaken(db, change.event.row.id))
    && (change.receipt.Some? && request.Transition? ==> request.command.key !in db.receipts)
  }

  ghost predicate IndexesAccept(db: Db, request: Request, change: Change)
    requires Target(request) in db.books
  {
    TicketIndexesAccept(db.books[Target(request)], change) && SharedKeysAccept(db, request, change)
  }

  /** Commit a plan: all its writes, or none of them when a unique index objects. */
  ghost function Commit(db: Db, request: Request, planned: Planned): (Db, Outcome)
  {
    if planned.effect.Nothing? then (db, planned.outcome)
    else if Target(request) in db.books && IndexesAccept(db, request, planned.effect.change)
    then (Apply(db, request, planned.effect.change), planned.outcome)
    else (db, Refused(UniqueViolation))
  }

  /** One request run alone: it reads the database it commits to. */
  ghost function Execute(db: Db, limit: nat, request: Request, draw: Draw): (Db, Outcome)
  {
    Commit(db, request, Plan(db, limit, request, draw))
  }
}
