/** The command contract of a ticket: which actions a status allows, and which commands are well formed. */
module TicketContract {
  import opened Prelude

  datatype Action = Accept | Complete | Cancel | Reopen

  datatype Status =
    | Pending | Queued | Waiting | NeedsClarification
    | Accepted | WaitingApproval | InProgress
    | Completed | Failed | Cancelled
    | Other(name: string)

  /** What a caller may pass as acceptance evidence; only a JSON object is accepted. */
  datatype Evidence = Absent | Scalar | List | Object(json: string)

  type TicketId = string

  datatype Command = Command(
    ticket: TicketId,
    action: Action,
    expectedVersion: int,
    key: string,
    actor: string,
    evidence: Evidence,
    reason: string)

  datatype Fault =
    | VersionRequired | KeyRequired | EvidenceRequired | ReasonRequired
    | TaskNotFound | KeyReused | VersionConflict | ActionNotAllowed
    | NotARunTrace | ImmutableEvent | UniqueViolation

  function AllowedActions(status: Status): seq<Action>
  {
    if status == Completed then [Reopen]
    else if status in {Failed, Cancelled} then []
    else
      (if status in {Pending, Queued, Waiting, NeedsClarification} then [Cancel] else [])
      + (if status == Pending then [Accept] else [])
      + (if status in {Accepted, Waiting, WaitingApproval, InProgress} then [Complete] else [])
  }

  function NextStatus(action: Action): Status
  {
    match action
    case Complete => Completed
    case Accept => Accepted
    case Reopen => Pending
    case Cancel => Cancelled
  }

  /** The first complaint about a command, in the order the checks are made. */
  function Validate(c: Command): Option<Fault>
  {
    if c.expectedVersion < 1 then Some(VersionRequired)
    else if |c.key| < 8 || |c.key| > 200 then Some(KeyRequired)
    else if c.action == Complete && !c.evidence.Object? then Some(EvidenceRequired)
    else if c.action == Reopen && Trim(c.reason) == "" then Some(ReasonRequired)
    else None
  }

  /** The statuses from which each action is allowed. */
  ghost predicate MayLeave(status: Status, action: Action)
  {
    match action
    case Reopen => status == Completed
    case Accept => status == Pending
    case Cancel => status == Pending || status == Queued || status == Waiting || status == NeedsClarification
    case Complete => status == Accepted || status == Waiting || status == WaitingApproval || status == InProgress
  }

  /** The table seen from the actions; and no action leads back to the status it started from. */
  lemma AllowedActionsMeaning(status: Status, action: Action)
    ensures action in AllowedActions(status) <==> MayLeave(status, action)
    ensures action in AllowedActions(status) ==> NextStatus(action) != status
  {
    var cancel := if status in {Pending, Queued, Waiting, NeedsClarification} then [Cancel] else [];
    var accept := if status == Pending then [Accept] else [];
    var complete := if status in {Accepted, Waiting, WaitingApproval, InProgress} then [Complete] else [];
    assert action in cancel + accept + complete <==> action in cancel || action in accept || action in complete;
  }
}
