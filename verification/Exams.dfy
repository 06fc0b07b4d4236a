/** Exam papers, frozen snapshots, attempts and their marks, as requests that first read and then write. */
module Exams {
  import opened Prelude

  /** The rounding of a percentage and the normal form of an answer. */
  datatype Rules = Rules(percent: (nat, nat) -> int, normalize: string -> string)

  datatype Item = Item(id: nat, answer: string, accepted: bool)

  datatype Paper = Paper(passScore: int, items: seq<Item>)

  datatype Exam = Exam(passScore: int, version: nat, published: bool, items: seq<Item>)

  datatype Assignment = Assignment(exam: nat, user: string, required: bool)

  datatype Attempt = Attempt(assignment: nat, user: string, version: nat, graded: bool, answers: map<nat, string>,
                             mark: Mark, key: Option<string>)

  datatype Mark = Mark(score: nat, total: nat, passed: bool)

  datatype Qualification = Qualification(assignment: nat, attempt: nat, score: nat, total: nat)

  /** The tables; a row's place in its list is its id. */
  datatype Db = Db(users: set<string>, exams: seq<Exam>, papers: map<(nat, nat), Paper>, assignments: seq<Assignment>,
                   attempts: seq<Attempt>, qualifications: map<(string, nat, nat), Qualification>)

  const NO_MARK := Mark(0, 0, false)

  // ---------- marks ----------

  /** A stored pass score of zero reads as eighty. */
  function Threshold(passScore: int): int
  {
    if passScore == 0 then 80 else passScore
  }

  predicate Correct(rules: Rules, item: Item, answers: map<nat, string>)
  {
    item.id in answers && answers[item.id] != "" && answers[item.id] == rules.normalize(item.answer)
  }

  function Score(rules: Rules, items: seq<Item>, answers: map<nat, string>): (score: nat)
    ensures score <= |items|
  {
    if items == [] then 0
    else Score(rules, items[..|items| - 1], answers) + if Correct(rules, items[|items| - 1], answers) then 1 else 0
  }

  function GradeSnapshot(rules: Rules, paper: Paper, answers: map<nat, string>): Mark
  {
    var score, total := Score(rules, paper.items, answers), |paper.items|;
    var percent := if total == 0 then 0 else rules.percent(score, total);
    Mark(score, total, total > 0 && percent >= Threshold(paper.passScore))
  }

  /** All items are counted iff all are correct, none iff none is. */
  lemma {:induction false} ScoreCounts(rules: Rules, items: seq<Item>, answers: map<nat, string>)
    ensures Score(rules, items, answers) == |items| <==> forall i :: 0 <= i < |items| ==> Correct(rules, items[i], answers)
    ensures Score(rules, items, answers) == 0 <==> forall i :: 0 <= i < |items| ==> !Correct(rules, items[i], answers)
  {
    if items != [] {
      var n := |items| - 1;
      ScoreCounts(rules, items[..n], answers);
      assert forall i :: 0 <= i < n ==> items[..n][i] == items[i];
      assert items == items[..n] + [items[n]];
    }
  }

  function AnswerMap(rules: Rules, raw: map<nat, string>): map<nat, string>
  {
    map id | id in raw :: rules.normalize(raw[id])
  }

  /** Answering more items correctly never turns a pass into a fail, whatever monotone rounding is used. */
  lemma MoreCorrectAnswersKeepThePass(rules: Rules, paper: Paper, less: map<nat, string>, more: map<nat, string>)
    requires forall a: nat, b: nat, total: nat :: a <= b ==> rules.percent(a, total) <= rules.percent(b, total)
    requires forall i :: 0 <= i < |paper.items| && Correct(rules, paper.items[i], less) ==> Correct(rules, paper.items[i], more)
    ensures GradeSnapshot(rules, paper, less).score <= GradeSnapshot(rules, paper, more).score
    ensures GradeSnapshot(rules, paper, less).passed ==> GradeSnapshot(rules, paper, more).passed
  {
    ScoreIsMonotone(rules, paper.items, less, more);
    assert rules.percent(Score(rules, paper.items, less), |paper.items|) <= rules.percent(Score(rules, paper.items, more), |paper.items|);
  }

  lemma {:induction false} ScoreIsMonotone(rules: Rules, items: seq<Item>, less: map<nat, string>, more: map<nat, string>)
    requires forall i :: 0 <= i < |items| && Correct(rules, items[i], less) ==> Correct(rules, items[i], more)
    ensures Score(rules, items, less) <= Score(rules, items, more)
  {
    if items != [] {
      var n := |items| - 1;
      assert forall i :: 0 <= i < n ==> items[..n][i] == items[i];
      ScoreIsMonotone(rules, items[..n], less, more);
    }
  }

  // ---------- requests: what is read, and what is then written ----------

  datatype Request =
    | CreateExam(passScore: Option<int>)
    | AddItem(exam: nat, answer: string)
    | AcceptItem(exam: nat, item: nat)
    | Publish(exam: nat)
    | Assign(exam: nat, user: string, required: bool)
    | Start(assignment: nat, user: string)
    | Submit(assignment: nat, user: string, key: string, raw: map<nat, string>)

  datatype Refusal = NotFound | Invalid | Unaccepted | Draft | NoSnapshot

  datatype Answer =
    | Refused(why: Refusal)
    | Done
    | AlreadyAssigned(assignment: nat)
    | Opened(attempt: Option<nat>, version: nat, passScore: int)
    | Marked(attempt: Option<nat>, version: nat, mark: Mark)

  /** What a request writes at its end. `GradeAttempt` updates a row by id; the others insert or replace rows. */
  datatype Write =
    | Nothing
    | NewExam(passScore: int)
    | NewItem(exam: nat, answer: string)
    | Accept(exam: nat, item: nat)
    | NewPaper(exam: nat, version: nat, paper: Paper)
    | NewAssignment(assignment: Assignment)
    | NewAttempt(attempt: Attempt)
    | GradeAttempt(id: nat, attempt: Attempt)
    | NewGraded(attempt: Attempt)

  predicate Published(exam: Exam)
  {
    exam.published && exam.version > 0
  }

  /** The latest attempt still open for a user's assignment, among the first `n`. */
  function LatestStarted(attempts: seq<Attempt>, assignment: nat, user: string, n: nat): (id: Option<nat>)
    requires n <= |attempts|
    ensures id.Some? ==> id.value < n && !attempts[id.value].graded && attempts[id.value].assignment == assignment && attempts[id.value].user == user
    ensures forall i :: (if id.Some? then id.value + 1 else 0) <= i < n ==>
              attempts[i].graded || attempts[i].assignment != assignment || attempts[i].user != user
  {
    if n == 0 then None
    else
      var t := attempts[n - 1];
      if !t.graded && t.assignment == assignment && t.user == user then Some(n - 1)
      else LatestStarted(attempts, assignment, user, n - 1)
  }

  /** The graded attempt that a user's key names. */
  function PriorFrom(attempts: seq<Attempt>, user: string, key: string, i: nat): (id: Option<nat>)
    requires i <= |attempts|
    ensures id.Some? ==> id.value < |attempts| && attempts[id.value].graded && attempts[id.value].user == user && attempts[id.value].key == Some(key)
    ensures id.None? ==> forall j :: i <= j < |attempts| ==> !(attempts[j].graded && attempts[j].user == user && attempts[j].key == Some(key))
    decreases |attempts| - i
  {
    if i == |attempts| then None
    else if attempts[i].graded && attempts[i].user == user && attempts[i].key == Some(key) then Some(i)
    else PriorFrom(attempts, user, key, i + 1)
  }

  function AssignedTo(assignments: seq<Assignment>, exam: nat, user: string, i: nat): (id: Option<nat>)
    requires i <= |assignments|
    ensures id.Some? ==> id.value < |assignments| && assignments[id.value].exam == exam && assignments[id.value].user == user
    ensures id.None? ==> forall j :: i <= j < |assignments| ==> assignments[j].exam != exam || assignments[j].user != user
    decreases |assignments| - i
  {
    if i == |assignments| then None
    else if assignments[i].exam == exam && assignments[i].user == user then Some(i)
    else AssignedTo(assignments, exam, user, i + 1)
  }

  /** The snapshot of a version, unless it is missing or empty. */
  function LoadSnapshot(db: Db, exam: nat, version: nat): Option<Paper>
  {
    if (exam, version) in db.papers && db.papers[(exam, version)].items != [] then Some(db.papers[(exam, version)]) else None
  }

  function PlanPublish(db: Db, e: nat): (Write, Answer)
  {
    if e >= |db.exams| then (Nothing, Refused(NotFound))
    else
      var exam := db.exams[e];
      if exam.items == [] || exists i :: 0 <= i < |exam.items| && !exam.items[i].accepted then (Nothing, Refused(Unaccepted))
      else (NewPaper(e, exam.version + 1, Paper(Threshold(exam.passScore), exam.items)), Done)
  }

  function PlanAssign(db: Db, e: nat, user: string, required: bool): (Write, Answer)
  {
    if e >= |db.exams| then (Nothing, Refused(NotFound))
    else if !Published(db.exams[e]) then (Nothing, Refused(Draft))
    else if user !in db.users then (Nothing, Refused(NotFound))
    else
      var existing := AssignedTo(db.assignments, e, user, 0);
      if existing.Some? then (Nothing, AlreadyAssigned(existing.value))
      else (NewAssignment(Assignment(e, user, required)), Done)
  }

  /**
   * A published paper keeps the exam's pass score exactly when that is not zero; and a verdict is the one by the
   * exam's own score exactly when that is not zero, or the percentage is on one side of both zero and eighty.
   */
  lemma OwnPassScoreExactlyWhen(rules: Rules, db: Db, e: nat, answers: map<nat, string>)
    requires PlanPublish(db, e).0.NewPaper?
    ensures
      var paper, own := PlanPublish(db, e).0.paper, db.exams[e].passScore;
      var percent := rules.percent(Score(rules, paper.items, answers), |paper.items|);
      && (paper.passScore == own <==> own != 0)
      && ((GradeSnapshot(rules, paper, answers).passed <==> percent >= own) <==> (own != 0 || percent < 0 || percent >= 80))
  {
  }

  /** A pass score of zero is accepted, and then an attempt with no correct answer fails. */
  lemma ZeroPassScoreFails()
    ensures
      var rules := Rules((score: nat, total: nat) => score, text => text);
      var db := Db({}, [Exam(0, 0, false, [Item(0, "yes", true)])], map[], [], [], map[]);
      && Plan(rules, db, CreateExam(Some(0))) == (NewExam(0), Done)
      && PlanPublish(db, 0).0.NewPaper?
      && !GradeSnapshot(rules, PlanPublish(db, 0).0.paper, map[]).passed
  {
    var rules := Rules((score: nat, total: nat) => score, text => text);
    var items := [Item(0, "yes", true)];
    ScoreCounts(rules, items, map[]);
    assert forall i :: 0 <= i < |items| ==> !Correct(rules, items[i], map[]);
  }

  predicate Owns(db: Db, assignment: nat, user: string)
  {
    && assignment < |db.assignments| && db.assignments[assignment].user == user
    && db.assignments[assignment].exam < |db.exams|
  }

  function ExamOf(db: Db, assignment: nat): Exam
    requires assignment < |db.assignments| && db.assignments[assignment].exam < |db.exams|
  {
    db.exams[db.assignments[assignment].exam]
  }

  function PlanStart(db: Db, assignment: nat, user: string): (Write, Answer)
  {
    if !Owns(db, assignment, user) then (Nothing, Refused(NotFound))
    else if !Published(ExamOf(db, assignment)) then (Nothing, Refused(Draft))
    else
      var version := ExamOf(db, assignment).version;
      var snapshot := LoadSnapshot(db, db.assignments[assignment].exam, version);
      var open := LatestStarted(db.attempts, assignment, user, |db.attempts|);
      if snapshot.None? then (Nothing, Refused(NoSnapshot))
      else if open.Some? && db.attempts[open.value].version == version then
        (Nothing, Opened(open, version, Threshold(snapshot.value.passScore)))
      else
        (NewAttempt(Attempt(assignment, user, version, false, map[], NO_MARK, None)),
         Opened(None, version, Threshold(snapshot.value.passScore)))
  }

  function PlanSubmit(rules: Rules, db: Db, assignment: nat, user: string, rawKey: string, raw: map<nat, string>): (Write, Answer)
  {
    var key := Trim(rawKey);
    if !Owns(db, assignment, user) then (Nothing, Refused(NotFound))
    else if !Published(ExamOf(db, assignment)) then (Nothing, Refused(Draft))
    else
      var prior := if key == "" then None else PriorFrom(db.attempts, user, key, 0);
      if prior.Some? then
        (Nothing, Marked(prior, db.attempts[prior.value].version, db.attempts[prior.value].mark))
      else
        var started := LatestStarted(db.attempts, assignment, user, |db.attempts|);
        var exam := ExamOf(db, assignment);
        var version := if started.Some? && db.attempts[started.value].version != 0 then db.attempts[started.value].version else exam.version;
        var snapshot := LoadSnapshot(db, db.assignments[assignment].exam, version);
        if snapshot.None? then (Nothing, Refused(NoSnapshot))
        else
          var answers := AnswerMap(rules, raw);
          var mark := GradeSnapshot(rules, snapshot.value, answers);
          var row := Attempt(assignment, user, version, true, answers, mark, if key == "" then None else Some(key));
          (if started.Some? then GradeAttempt(started.value, row) else NewGraded(row), Marked(started, version, mark))
  }

  /** Everything a request reads and decides before its write. */
  function Plan(rules: Rules, db: Db, request: Request): (Write, Answer)
  {
    match request
    case CreateExam(passScore) =>
      var score := if passScore.Some? then passScore.value else 80;
      if 0 <= score <= 100 then (NewExam(score), Done) else (Nothing, Refused(Invalid))
    case AddItem(exam, answer) =>
      if exam >= |db.exams| then (Nothing, Refused(NotFound))
      else if answer == "" then (Nothing, Refused(Invalid))
      else (NewItem(exam, answer), Done)
    case AcceptItem(exam, item) =>
      if exam < |db.exams| && item < |db.exams[exam].items| then (Accept(exam, item), Done) else (Nothing, Refused(NotFound))
    case Publish(exam) => PlanPublish(db, exam)
    case Assign(exam, user, required) => PlanAssign(db, exam, user, required)
    case Start(assignment, user) => PlanStart(db, assignment, user)
    case Submit(assignment, user, key, raw) => PlanSubmit(rules, db, assignment, user, key, raw)
  }

  /** The unique index on a user's keys refuses the row. */
  predicate KeyTaken(attempts: seq<Attempt>, row: Attempt, except: int)
  {
    row.key.Some? && exists i :: 0 <= i < |attempts| && i != except && attempts[i].user == row.user && attempts[i].key == row.key
  }

  function Qualified(db: Db, id: nat, row: Attempt): map<(string, nat, nat), Qualification>
    requires row.assignment < |db.assignments|
  {
    if row.mark.passed
    then db.qualifications[(row.user, db.assignments[row.assignment].exam, row.version) := Qualification(row.assignment, id, row.mark.score, row.mark.total)]
    else db.qualifications
  }

  /** The write's own transaction; a row that a unique index refuses aborts it and leaves the tables as they were. */
  function Apply(db: Db, write: Write): Db
  {
    match write
    case Nothing => db
    case NewExam(passScore) => db.(exams := db.exams + [Exam(passScore, 0, false, [])])
    case NewItem(e, answer) =>
      if e >= |db.exams| then db
      else
        var exam := db.exams[e];
        db.(exams := db.exams[e := exam.(items := exam.items + [Item(|exam.items|, answer, false)])])
    case Accept(e, i) =>
      if e >= |db.exams| || i >= |db.exams[e].items| then db
      else
        var exam := db.exams[e];
        db.(exams := db.exams[e := exam.(items := exam.items[i := exam.items[i].(accepted := true)])])
    case NewPaper(e, version, paper) =>
      if (e, version) in db.papers || e >= |db.exams| then db
      else db.(papers := db.papers[(e, version) := paper], exams := db.exams[e := db.exams[e].(version := version, published := true)])
    case NewAssignment(a) =>
      if AssignedTo(db.assignments, a.exam, a.user, 0).Some? then db
      else db.(assignments := db.assignments + [a])
    case NewAttempt(row) => db.(attempts := db.attempts + [row])
    case GradeAttempt(id, row) =>
      if id >= |db.attempts| || row.assignment >= |db.assignments| || KeyTaken(db.attempts, row, id) then db
      else db.(attempts := db.attempts[id := row], qualifications := Qualified(db, id, row))
    case NewGraded(row) =>
      if row.assignment >= |db.assignments| || KeyTaken(db.attempts, row, -1) then db
      else db.(attempts := db.attempts + [row], qualifications := Qualified(db, |db.attempts|, row))
  }

  // ---------- what every interleaving keeps ----------

  /** What may be frozen: at least one item, and only accepted ones. */
  predicate Publishable(items: seq<Item>)
  {
    items != [] && forall i :: 0 <= i < |items| ==> items[i].accepted
  }

  /** Snapshots 1 to the exam's version exist, no others, and an exam is published from its first one on. */
  ghost predicate PapersOk(db: Db)
  {
    && (forall e: nat, v: nat :: (e, v) in db.papers <==> e < |db.exams| && 1 <= v <= db.exams[e].version)
    && (forall k :: k in db.papers ==> Publishable(db.papers[k].items))
    && (forall e :: 0 <= e < |db.exams| ==> (db.exams[e].published <==> db.exams[e].version > 0))
  }

  ghost predicate AssignmentsOk(db: Db)
  {
    && (forall a :: 0 <= a < |db.assignments| ==> db.assignments[a].exam < |db.exams| && db.exams[db.assignments[a].exam].version > 0)
    && (forall a, b :: 0 <= a < b < |db.assignments| ==>
          db.assignments[a].exam != db.assignments[b].exam || db.assignments[a].user != db.assignments[b].user)
  }

  /** A graded attempt's mark is the mark of its recorded answers on the snapshot of its own version. */
  ghost predicate AttemptOk(rules: Rules, db: Db, row: Attempt)
  {
    && row.assignment < |db.assignments| && row.user == db.assignments[row.assignment].user
    && (db.assignments[row.assignment].exam, row.version) in db.papers
    && (row.graded ==> row.mark == GradeSnapshot(rules, db.papers[(db.assignments[row.assignment].exam, row.version)], row.answers))
    && (!row.graded ==> row.mark == NO_MARK && row.key == None)
  }

  ghost predicate AttemptsOk(rules: Rules, db: Db)
  {
    forall i :: 0 <= i < |db.attempts| ==> AttemptOk(rules, db, db.attempts[i])
  }

  ghost predicate KeysOk(db: Db)
  {
    forall i, j :: 0 <= i < j < |db.attempts| && db.attempts[i].key.Some? && db.attempts[i].user == db.attempts[j].user ==>
      db.attempts[i].key != db.attempts[j].key
  }

  /** A qualification names a graded attempt of its user on its exam's version. */
  ghost predicate QualificationOk(db: Db, k: (string, nat, nat))
    requires k in db.qualifications
  {
    var q := db.qualifications[k];
    && q.attempt < |db.attempts|
    && var row := db.attempts[q.attempt];
    && row.graded && row.user == k.0 && row.version == k.2 && row.assignment == q.assignment
    && row.assignment < |db.assignments| && db.assignments[row.assignment].exam == k.1
  }

  ghost predicate QualificationsOk(db: Db)
  {
    forall k :: k in db.qualifications ==> QualificationOk(db, k)
  }

  ghost predicate DbOk(rules: Rules, db: Db)
  {
    PapersOk(db) && AssignmentsOk(db) && AttemptsOk(rules, db) && KeysOk(db) && QualificationsOk(db)
  }

  /** What no write takes back: frozen papers, assignments, and whose attempt on which version a row is. */
  ghost predicate Extends(db: Db, later: Db)
  {
    && |db.exams| <= |later.exams| && (forall e :: 0 <= e < |db.exams| ==> db.exams[e].version <= later.exams[e].version)
    && (forall e :: 0 <= e < |db.exams| ==> (Published(db.exams[e]) ==> Published(later.exams[e])))
    && (forall k :: k in db.papers ==> k in later.papers && later.papers[k] == db.papers[k])
    && |db.assignments| <= |later.assignments| && (forall a :: 0 <= a < |db.assignments| ==> later.assignments[a] == db.assignments[a])
    && |db.attempts| <= |later.attempts|
    && (forall i :: 0 <= i < |db.attempts| ==>
          later.attempts[i].assignment == db.attempts[i].assignment && later.attempts[i].user == db.attempts[i].user
          && later.attempts[i].version == db.attempts[i].version && (db.attempts[i].graded ==> later.attempts[i].graded))
  }

  /** What a plan may still rely on when its write comes, however late. */
  ghost predicate WriteOk(rules: Rules, db: Db, write: Write)
  {
    match write
    case NewPaper(e, version, paper) => e < |db.exams| && 1 <= version <= db.exams[e].version + 1 && Publishable(paper.items)
    case NewAssignment(a) => a.exam < |db.exams| && db.exams[a.exam].version > 0
    case NewAttempt(row) => !row.graded && AttemptOk(rules, db, row)
    case GradeAttempt(id, row) =>
      && id < |db.attempts| && row.graded && AttemptOk(rules, db, row)
      && db.attempts[id].assignment == row.assignment && db.attempts[id].user == row.user && db.attempts[id].version == row.version
    case NewGraded(row) => row.graded && AttemptOk(rules, db, row)
    case _ => true
  }

  lemma WriteStaysOk(rules: Rules, db: Db, later: Db, write: Write)
    requires WriteOk(rules, db, write) && Extends(db, later)
    ensures WriteOk(rules, later, write)
  {
    hide GradeSnapshot;
  }

  lemma SubmitIsOk(rules: Rules, db: Db, assignment: nat, user: string, key: string, raw: map<nat, string>)
    requires DbOk(rules, db)
    ensures WriteOk(rules, db, PlanSubmit(rules, db, assignment, user, key, raw).0)
  {
    hide GradeSnapshot, AnswerMap, KeysOk, QualificationsOk;
    var started := LatestStarted(db.attempts, assignment, user, |db.attempts|);
    if started.Some? { assert AttemptOk(rules, db, db.attempts[started.value]); }
  }

  lemma PlanIsOk(rules: Rules, db: Db, request: Request)
    requires DbOk(rules, db)
    ensures WriteOk(rules, db, Plan(rules, db, request).0)
  {
    hide GradeSnapshot, AnswerMap, KeysOk, QualificationsOk, PlanSubmit;
    match request {
      case Submit(assignment, user, key, raw) => SubmitIsOk(rules, db, assignment, user, key, raw);
      case _ =>
    }
  }

  lemma ApplyExtends(rules: Rules, db: Db, write: Write)
    requires DbOk(rules, db) && WriteOk(rules, db, write)
    ensures Extends(db, Apply(db, write))
  {
    hide GradeSnapshot, KeysOk, QualificationsOk, AttemptsOk, AssignmentsOk, AttemptOk, Qualified, KeyTaken, AssignedTo;
    match write {
      case NewPaper(e, version, paper) =>
        assert (e, version) !in db.papers ==> version == db.exams[e].version + 1;
      case _ =>
    }
  }

  lemma ApplyKeepsPapers(rules: Rules, db: Db, write: Write)
    requires DbOk(rules, db) && WriteOk(rules, db, write)
    ensures PapersOk(Apply(db, write))
  {
    hide GradeSnapshot, KeysOk, QualificationsOk, AttemptsOk, Qualified;
    match write {
      case NewPaper(e, version, paper) =>
        assert (e, version) !in db.papers ==> version == db.exams[e].version + 1;
      case _ =>
    }
  }

  lemma ApplyKeepsAssignments(rules: Rules, db: Db, write: Write)
    requires DbOk(rules, db) && WriteOk(rules, db, write)
    ensures AssignmentsOk(Apply(db, write))
  {
    ApplyExtends(rules, db, write);
    hide GradeSnapshot, KeysOk, QualificationsOk, AttemptsOk, Qualified, PapersOk;
  }

  lemma AttemptStaysOk(rules: Rules, db: Db, later: Db, row: Attempt)
    requires AttemptOk(rules, db, row) && Extends(db, later)
    ensures AttemptOk(rules, later, row)
  {
    hide GradeSnapshot;
  }

  lemma ApplyKeepsAttempts(rules: Rules, db: Db, write: Write)
    requires DbOk(rules, db) && WriteOk(rules, db, write)
    ensures AttemptsOk(rules, Apply(db, write))
  {
    ApplyExtends(rules, db, write);
    var later := Apply(db, write);
    hide KeysOk, QualificationsOk, Qualified, PapersOk, AssignmentsOk, KeyTaken;
    forall i | 0 <= i < |later.attempts| ensures AttemptOk(rules, later, later.attempts[i]) {
      if i < |db.attempts| && later.attempts[i] == db.attempts[i] {
        AttemptStaysOk(rules, db, later, db.attempts[i]);
      } else {
        AttemptStaysOk(rules, db, later, write.attempt);
      }
    }
  }

  lemma ApplyKeepsKeys(rules: Rules, db: Db, write: Write)
    requires DbOk(rules, db) && WriteOk(rules, db, write)
    ensures KeysOk(Apply(db, write))
  {
    hide GradeSnapshot, PapersOk, AssignmentsOk, AttemptsOk, QualificationsOk, Qualified;
  }

  lemma QualificationStays(db: Db, later: Db, k: (string, nat, nat))
    requires k in db.qualifications && QualificationOk(db, k) && Extends(db, later)
    requires k in later.qualifications && later.qualifications[k] == db.qualifications[k]
    ensures QualificationOk(later, k)
  {
  }

  lemma NewQualificationIsOk(rules: Rules, db: Db, write: Write, k: (string, nat, nat))
    requires WriteOk(rules, db, write) && k in Apply(db, write).qualifications
    requires k !in db.qualifications || Apply(db, write).qualifications[k] != db.qualifications[k]
    ensures QualificationOk(Apply(db, write), k)
  {
    hide GradeSnapshot, KeyTaken;
  }

  lemma ApplyKeepsQualifications(rules: Rules, db: Db, write: Write)
    requires DbOk(rules, db) && WriteOk(rules, db, write)
    ensures QualificationsOk(Apply(db, write))
  {
    ApplyExtends(rules, db, write);
    hide PapersOk, AssignmentsOk, AttemptsOk, KeysOk, Apply, WriteOk, Extends, QualificationOk;
    var later := Apply(db, write);
    forall k | k in later.qualifications ensures QualificationOk(later, k) {
      if k in db.qualifications && later.qualifications[k] == db.qualifications[k] {
        QualificationStays(db, later, k);
      } else {
        NewQualificationIsOk(rules, db, write, k);
      }
    }
  }

  lemma ApplyKeepsAll(rules: Rules, db: Db, write: Write)
    requires DbOk(rules, db) && WriteOk(rules, db, write)
    ensures DbOk(rules, Apply(db, write)) && Extends(db, Apply(db, write))
  {
    ApplyExtends(rules, db, write);
    ApplyKeepsPapers(rules, db, write);
    ApplyKeepsAssignments(rules, db, write);
    ApplyKeepsAttempts(rules, db, write);
    ApplyKeepsKeys(rules, db, write);
    ApplyKeepsQualifications(rules, db, write);
    hide DbOk;
  }

  // ---------- interleaved runs ----------

  /** `Begin` reads and plans; `Finish(k)` performs the k-th plan's write, at any later point. */
  datatype Move = Begin(request: Request) | Finish(plan: nat)

  datatype System = System(db: Db, plans: seq<Write>)

  function Next(rules: Rules, s: System, move: Move): System
  {
    match move
    case Begin(request) => s.(plans := s.plans + [Plan(rules, s.db, request).0])
    case Finish(k) => if k < |s.plans| then System(Apply(s.db, s.plans[k]), s.plans[k := Nothing]) else s
  }

  ghost function After(rules: Rules, start: Db, run: seq<Move>): System
  {
    if run == [] then System(start, [])
    else Next(rules, After(rules, start, run[..|run| - 1]), run[|run| - 1])
  }

  ghost predicate SystemOk(rules: Rules, s: System)
  {
    DbOk(rules, s.db) && forall k :: 0 <= k < |s.plans| ==> WriteOk(rules, s.db, s.plans[k])
  }

  lemma ExtendsIsTransitive(a: Db, b: Db, c: Db)
    requires Extends(a, b) && Extends(b, c)
    ensures Extends(a, c)
  {
  }

  lemma NextKeepsSystem(rules: Rules, s: System, move: Move)
    requires SystemOk(rules, s)
    ensures SystemOk(rules, Next(rules, s, move)) && Extends(s.db, Next(rules, s, move).db)
  {
    hide DbOk, WriteOk, Apply, Plan, Extends;
    match move {
      case Begin(request) =>
        PlanIsOk(rules, s.db, request);
        ExtendsSelf(s.db);
      case Finish(k) =>
        if k < |s.plans| {
          ApplyKeepsAll(rules, s.db, s.plans[k]);
          var later := Apply(s.db, s.plans[k]);
          var plans := s.plans[k := Nothing];
          forall j | 0 <= j < |plans| ensures WriteOk(rules, later, plans[j]) {
            if j == k { NothingIsOk(rules, later); } else { WriteStaysOk(rules, s.db, later, s.plans[j]); }
          }
        } else {
          ExtendsSelf(s.db);
        }
    }
  }

  lemma ExtendsSelf(db: Db)
    ensures Extends(db, db)
  {
  }

  lemma NothingIsOk(rules: Rules, db: Db)
    ensures WriteOk(rules, db, Nothing)
  {
  }

  /**
   * Every interleaving of requests, from any good tables: each graded attempt's mark is that of its answers on the
   * snapshot of its own version, snapshots 1 to the version exist and never change, keys and assignments stay unique.
   */
  lemma {:induction false} RunKeepsSystem(rules: Rules, start: Db, run: seq<Move>, i: nat)
    requires DbOk(rules, start) && i <= |run|
    ensures SystemOk(rules, After(rules, start, run))
    ensures Extends(After(rules, start, run[..i]).db, After(rules, start, run).db)
    decreases |run|
  {
    hide DbOk, WriteOk, Apply, Plan, Extends;
    if i == |run| {
      assert run[..i] == run;
      ExtendsSelf(After(rules, start, run).db);
    }
    if run != [] {
      var n := |run| - 1;
      RunKeepsSystem(rules, start, run[..n], if i < n then i else n);
      NextKeepsSystem(rules, After(rules, start, run[..n]), run[n]);
      if i <= n {
        assert run[..n][..i] == run[..i];
        ExtendsIsTransitive(After(rules, start, run[..i]).db, After(rules, start, run[..n]).db, After(rules, start, run).db);
      }
    }
  }

  // ---------- passes and qualifications ----------

  ghost predicate PassedAssignment(db: Db, a: nat)
    requires a < |db.assignments|
  {
    exists i :: 0 <= i < |db.attempts| && db.attempts[i].assignment == a && db.attempts[i].user == db.assignments[a].user
                && db.attempts[i].graded && db.attempts[i].mark.passed
  }

  /** A user's required assignments on published papers that no graded attempt has passed. */
  ghost function Missing(db: Db, user: string): set<nat>
    requires AssignmentsOk(db)
  {
    set a: nat | a < |db.assignments| && db.assignments[a].user == user && db.assignments[a].required
                 && Published(db.exams[db.assignments[a].exam]) && !PassedAssignment(db, a)
  }

  ghost function ExamTodoCount(db: Db, user: string): nat
    requires AssignmentsOk(db)
  {
    |Missing(db, user)|
  }

  /** The grading write finds its row still open. */
  predicate Guarded(db: Db, write: Write)
  {
    write.GradeAttempt? && write.id < |db.attempts| ==> !db.attempts[write.id].graded
  }

  ghost predicate GradedStay(db: Db, later: Db)
  {
    |db.attempts| <= |later.attempts| && forall i :: 0 <= i < |db.attempts| && db.attempts[i].graded ==> later.attempts[i] == db.attempts[i]
  }

  /** Each qualification's attempt passed, with the score the qualification records. */
  ghost predicate QualificationsPassed(db: Db)
  {
    forall k :: k in db.qualifications ==>
      && db.qualifications[k].attempt < |db.attempts|
      && db.attempts[db.qualifications[k].attempt].mark == Mark(db.qualifications[k].score, db.qualifications[k].total, true)
  }

  /** Each passing attempt has a qualification for its user, exam and version. */
  ghost predicate PassesQualify(db: Db)
  {
    forall i :: 0 <= i < |db.attempts| && db.attempts[i].mark.passed ==>
      && db.attempts[i].assignment < |db.assignments|
      && (db.attempts[i].user, db.assignments[db.attempts[i].assignment].exam, db.attempts[i].version) in db.qualifications
  }

  lemma GuardedWriteKeepsGraded(rules: Rules, db: Db, write: Write)
    requires WriteOk(rules, db, write) && Guarded(db, write)
    ensures GradedStay(db, Apply(db, write))
  {
    hide AttemptOk;
  }

  lemma GuardedWriteKeepsQualifications(rules: Rules, db: Db, write: Write)
    requires DbOk(rules, db) && WriteOk(rules, db, write) && Guarded(db, write) && QualificationsPassed(db)
    ensures QualificationsPassed(Apply(db, write))
  {
    hide GradeSnapshot, PapersOk, AssignmentsOk, AttemptsOk, KeysOk, KeyTaken, AttemptOk;
    var later := Apply(db, write);
    forall k | k in later.qualifications
      ensures later.qualifications[k].attempt < |later.attempts|
      ensures later.attempts[later.qualifications[k].attempt].mark == Mark(later.qualifications[k].score, later.qualifications[k].total, true)
    {
      if k in db.qualifications && later.qualifications[k] == db.qualifications[k] { assert QualificationOk(db, k); }
    }
  }

  /** With or without the guard, every passing attempt has its qualification row. */
  lemma PassesKeepQualifying(rules: Rules, db: Db, write: Write)
    requires DbOk(rules, db) && WriteOk(rules, db, write) && PassesQualify(db)
    ensures PassesQualify(Apply(db, write))
  {
    hide GradeSnapshot, PapersOk, AssignmentsOk, KeysOk, KeyTaken, QualificationsOk;
  }

  lemma GradedOwner(rules: Rules, db: Db, row: Attempt)
    requires AttemptOk(rules, db, row)
    ensures row.assignment < |db.assignments|
  {
  }

  /** A request that nothing comes between is guarded: its read found the row open. */
  lemma UninterruptedIsGuarded(rules: Rules, db: Db, request: Request)
    ensures Guarded(db, Plan(rules, db, request).0)
  {
    hide GradeSnapshot, AnswerMap;
  }

  /** Every grading write of the run finds its row still open. */
  ghost predicate GuardedRun(rules: Rules, start: Db, run: seq<Move>)
  {
    forall n :: 0 <= n < |run| && run[n].Finish? ==>
      var s := After(rules, start, run[..n]);
      run[n].plan < |s.plans| ==> Guarded(s.db, s.plans[run[n].plan])
  }

  lemma GradedStaySelf(db: Db)
    ensures GradedStay(db, db)
  {
  }

  lemma GradedStayIsTransitive(a: Db, b: Db, c: Db)
    requires GradedStay(a, b) && GradedStay(b, c)
    ensures GradedStay(a, c)
  {
  }

  /** In every interleaving, guarded or not, each passing attempt has a qualification row for its exam and version. */
  lemma {:induction false} PassesQualifyInEveryRun(rules: Rules, start: Db, run: seq<Move>)
    requires DbOk(rules, start) && PassesQualify(start)
    ensures PassesQualify(After(rules, start, run).db)
  {
    hide DbOk, Apply, Plan, PassesQualify;
    if run != [] {
      var n := |run| - 1;
      PassesQualifyInEveryRun(rules, start, run[..n]);
      RunKeepsSystem(rules, start, run[..n], 0);
      var s := After(rules, start, run[..n]);
      if run[n].Finish? && run[n].plan < |s.plans| { PassesKeepQualifying(rules, s.db, s.plans[run[n].plan]); }
    }
  }

  // ---------- without the guard ----------

  function Exact(score: nat, total: nat): int
  {
    if total == 0 then 0 else 100 * score / total
  }

  /** One published exam with one question, assigned to one user who has opened it. */
  ghost function OneQuestion(): Db
  {
    Db({"u"}, [Exam(80, 1, true, [Item(0, "yes", true)])], map[(0, 1) := Paper(80, [Item(0, "yes", true)])],
       [Assignment(0, "u", true)], [Attempt(0, "u", 1, false, map[], NO_MARK, None)], map[])
  }

  /**
   * Two submissions of one open attempt that both read before either writes: the second write fails the attempt that
   * the first had passed, the assignment counts as missing again, and the qualification stays behind without a pass.
   */
  lemma RacingSubmissionsLoseThePass()
    ensures
      var rules := Rules(Exact, text => text);
      var run := Race();
      var won, lost := After(rules, OneQuestion(), run[..3]).db, After(rules, OneQuestion(), run).db;
      && DbOk(rules, OneQuestion()) && QualificationsPassed(OneQuestion())
      && AssignmentsOk(won) && ExamTodoCount(won, "u") == 0
      && AssignmentsOk(lost) && ExamTodoCount(lost, "u") == 1
      && ("u", 0, 1) in lost.qualifications && !QualificationsPassed(lost)
  {
    var rules := Rules(Exact, text => text);
    OneQuestionIsOk(rules);
    RaceRuns(rules);
    RaceCounts();
  }

  ghost function Race(): seq<Move>
  {
    [Begin(Submit(0, "u", "", map[0 := "yes"])), Begin(Submit(0, "u", "", map[0 := "no"])), Finish(0), Finish(1)]
  }

  ghost function RaceRow(mark: Mark, answer: string): Attempt
  {
    Attempt(0, "u", 1, true, map[0 := answer], mark, None)
  }

  ghost function Graded(mark: Mark, answer: string): Db
  {
    OneQuestion().(attempts := [RaceRow(mark, answer)],
                   qualifications := map[("u", 0, 1) := Qualification(0, 0, 1, 1)])
  }

  lemma RaceWrites()
    ensures Apply(OneQuestion(), GradeAttempt(0, RaceRow(Mark(1, 1, true), "yes"))) == Graded(Mark(1, 1, true), "yes")
    ensures Apply(Graded(Mark(1, 1, true), "yes"), GradeAttempt(0, RaceRow(Mark(0, 1, false), "no"))) == Graded(Mark(0, 1, false), "no")
  {
  }

  lemma RaceRuns(rules: Rules)
    requires rules == Rules(Exact, text => text)
    ensures After(rules, OneQuestion(), Race()[..3]).db == Graded(Mark(1, 1, true), "yes")
    ensures After(rules, OneQuestion(), Race()).db == Graded(Mark(0, 1, false), "no")
  {
    PlansOfTheRace(rules);
    RaceWrites();
    hide Plan, Apply, Graded, RaceRow, OneQuestion;
    var run, start := Race(), OneQuestion();
    var pass, fail := RaceRow(Mark(1, 1, true), "yes"), RaceRow(Mark(0, 1, false), "no");
    assert run[..0] == [] && run[..1][..0] == [];
    assert run[..2][..1] == run[..1] && run[..3][..2] == run[..2] && run[..4][..3] == run[..3] && run[..4] == run;
    assert After(rules, start, run[..1]) == System(start, [GradeAttempt(0, pass)]);
    assert After(rules, start, run[..2]) == System(start, [GradeAttempt(0, pass), GradeAttempt(0, fail)]);
    assert After(rules, start, run[..3]) == System(Graded(Mark(1, 1, true), "yes"), [Nothing, GradeAttempt(0, fail)]);
  }

  lemma RaceCounts()
    ensures
      var won, lost := Graded(Mark(1, 1, true), "yes"), Graded(Mark(0, 1, false), "no");
      && AssignmentsOk(won) && Missing(won, "u") == {}
      && AssignmentsOk(lost) && Missing(lost, "u") == {0}
      && ("u", 0, 1) in lost.qualifications && !QualificationsPassed(lost)
  {
    var won, lost := Graded(Mark(1, 1, true), "yes"), Graded(Mark(0, 1, false), "no");
    assert PassedAssignment(won, 0) by { assert won.attempts[0].mark.passed; }
    assert !PassedAssignment(lost, 0);
    assert lost.qualifications[("u", 0, 1)].attempt == 0;
  }

  lemma OneQuestionIsOk(rules: Rules)
    ensures DbOk(rules, OneQuestion()) && QualificationsPassed(OneQuestion())
  {
    hide GradeSnapshot;
  }

  lemma PlansOfTheRace(rules: Rules)
    requires rules == Rules(Exact, text => text)
    ensures Plan(rules, OneQuestion(), Submit(0, "u", "", map[0 := "yes"])).0
      == GradeAttempt(0, RaceRow(Mark(1, 1, true), "yes"))
    ensures Plan(rules, OneQuestion(), Submit(0, "u", "", map[0 := "no"])).0
      == GradeAttempt(0, RaceRow(Mark(0, 1, false), "no"))
  {
    var db := OneQuestion();
    assert LatestStarted(db.attempts, 0, "u", 1) == Some(0);
    var items := db.papers[(0, 1)].items;
    assert items[..0] == [];
    assert AnswerMap(rules, map[0 := "yes"]) == map[0 := "yes"];
    assert AnswerMap(rules, map[0 := "no"]) == map[0 := "no"];
    assert "yes" != "no" by { assert |"yes"| == 3 && |"no"| == 2; }
    assert Score(rules, items, map[0 := "yes"]) == 1;
    assert Score(rules, items, map[0 := "no"]) == 0;
  }
}
