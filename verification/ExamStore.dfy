/** The exam tables as the request handlers change them, one request at a time. */
module ExamStore {
  import opened Prelude
  import opened Exams

  /** A request that nothing comes between: its write follows its read. */
  ghost function Serial(rules: Rules, db: Db, request: Request): (Db, Answer)
  {
    var plan := Plan(rules, db, request);
    (Apply(db, plan.0), plan.1)
  }

  /** On good tables no unique index refuses an uninterrupted request. */
  lemma UninterruptedNeverAborts(rules: Rules, db: Db, request: Request)
    requires DbOk(rules, db)
    ensures
      match Plan(rules, db, request).0 {
        case NewPaper(e, version, _) => (e, version) !in db.papers
        case NewAssignment(a) => AssignedTo(db.assignments, a.exam, a.user, 0).None?
        case GradeAttempt(id, row) => !KeyTaken(db.attempts, row, id)
        case NewGraded(row) => !KeyTaken(db.attempts, row, -1)
        case _ => true
      }
  {
    hide GradeSnapshot, AnswerMap, AssignmentsOk, KeysOk, QualificationsOk;
    match request {
      case Submit(assignment, user, key, raw) =>
        forall i | 0 <= i < |db.attempts| && db.attempts[i].user == user && db.attempts[i].key.Some?
          ensures db.attempts[i].graded
        {
          assert AttemptOk(rules, db, db.attempts[i]);
        }
      case _ =>
    }
  }

  /** A run of uninterrupted requests. */
  ghost function SerialRun(rules: Rules, db: Db, requests: seq<Request>): Db
  {
    if requests == [] then db else Serial(rules, SerialRun(rules, db, requests[..|requests| - 1]), requests[|requests| - 1]).0
  }

  /** So one at a time, everything holds that guarded runs keep: marks, snapshots, qualifications, and final graded rows. */
  lemma {:induction false} SerialRunsKeepAll(rules: Rules, db: Db, requests: seq<Request>)
    requires DbOk(rules, db) && QualificationsPassed(db) && PassesQualify(db)
    ensures
      var later := SerialRun(rules, db, requests);
      DbOk(rules, later) && QualificationsPassed(later) && PassesQualify(later) && Extends(db, later) && GradedStay(db, later)
  {
    hide DbOk, QualificationsPassed, PassesQualify, Extends, GradedStay, Plan, Apply, Guarded;
    if requests == [] {
      ExtendsSelf(db);
      GradedStaySelf(db);
    } else {
      var n := |requests| - 1;
      SerialRunsKeepAll(rules, db, requests[..n]);
      var before := SerialRun(rules, db, requests[..n]);
      var write := Plan(rules, before, requests[n]).0;
      PlanIsOk(rules, before, requests[n]);
      UninterruptedIsGuarded(rules, before, requests[n]);
      ApplyKeepsAll(rules, before, write);
      GuardedWriteKeepsGraded(rules, before, write);
      GuardedWriteKeepsQualifications(rules, before, write);
      PassesKeepQualifying(rules, before, write);
      ExtendsIsTransitive(db, before, Apply(before, write));
      GradedStayIsTransitive(db, before, Apply(before, write));
    }
  }

  /** One at a time, no guard is needed: an assignment once passed stays passed and is counted missing for no one. */
  lemma OncePassedNeverMissingSerially(rules: Rules, db: Db, requests: seq<Request>, k: nat, a: nat, user: string)
    requires DbOk(rules, db) && QualificationsPassed(db) && PassesQualify(db) && k <= |requests|
    requires a < |SerialRun(rules, db, requests[..k]).assignments| && PassedAssignment(SerialRun(rules, db, requests[..k]), a)
    ensures
      var later := SerialRun(rules, db, requests);
      AssignmentsOk(later) && a < |later.assignments| && PassedAssignment(later, a) && a !in Missing(later, user)
  {
    SerialRunsKeepAll(rules, db, requests[..k]);
    SerialRunsInPieces(rules, db, requests, k);
    var before := SerialRun(rules, db, requests[..k]);
    SerialRunsKeepAll(rules, before, requests[k..]);
    hide SerialRun;
    var later := SerialRun(rules, db, requests);
    var i :| 0 <= i < |before.attempts| && before.attempts[i].assignment == a && before.attempts[i].user == before.assignments[a].user
             && before.attempts[i].graded && before.attempts[i].mark.passed;
    assert later.attempts[i] == before.attempts[i] && later.assignments[a] == before.assignments[a];
  }

  lemma {:induction false} SerialRunsInPieces(rules: Rules, db: Db, requests: seq<Request>, k: nat)
    requires k <= |requests|
    ensures SerialRun(rules, db, requests) == SerialRun(rules, SerialRun(rules, db, requests[..k]), requests[k..])
    decreases |requests|
  {
    hide Serial;
    if k == |requests| {
      assert requests[..k] == requests;
    } else {
      var n := |requests| - 1;
      SerialRunsInPieces(rules, db, requests[..n], k);
      assert requests[..n][..k] == requests[..k];
      assert requests[k..][..|requests[k..]| - 1] == requests[..n][k..];
    }
  }

  class Store {
    const rules: Rules
    const users: set<string>
    var exams: seq<Exam>
    var papers: map<(nat, nat), Paper>
    var assignments: seq<Assignment>
    var attempts: seq<Attempt>
    var qualifications: map<(string, nat, nat), Qualification>

    constructor (rules: Rules, users: set<string>)
      ensures this.rules == rules && Contents() == Db(users, [], map[], [], [], map[])
      ensures DbOk(rules, Contents()) && QualificationsPassed(Contents())
    {
      this.rules, this.users := rules, users;
      exams, papers, assignments, attempts, qualifications := [], map[], [], [], map[];
    }

    ghost function Contents(): Db
      reads this
    {
      Db(users, exams, papers, assignments, attempts, qualifications)
    }

    method PublishExam(e: nat) returns (answer: Answer)
      requires DbOk(rules, Contents())
      modifies this`papers, this`exams
      ensures (Contents(), answer) == Serial(rules, old(Contents()), Publish(e))
    {
      UninterruptedNeverAborts(rules, Contents(), Publish(e));
      if e >= |exams| { return Refused(NotFound); }
      var items := exams[e].items;
      if items == [] { return Refused(Unaccepted); }
      if exists i :: 0 <= i < |items| && !items[i].accepted { return Refused(Unaccepted); }
      var version := exams[e].version + 1;
      papers := papers[(e, version) := Paper(Threshold(exams[e].passScore), items)];
      exams := exams[e := exams[e].(version := version, published := true)];
      answer := Done;
    }

    method AssignExam(e: nat, user: string, required: bool) returns (answer: Answer)
      requires DbOk(rules, Contents())
      modifies this`assignments
      ensures (Contents(), answer) == Serial(rules, old(Contents()), Assign(e, user, required))
    {
      if e >= |exams| { return Refused(NotFound); }
      if !Published(exams[e]) { return Refused(Draft); }
      if user !in users { return Refused(NotFound); }
      var existing := AssignedTo(assignments, e, user, 0);
      if existing.Some? { return AlreadyAssigned(existing.value); }
      assignments := assignments + [Assignment(e, user, required)];
      answer := Done;
    }

    method StartAttempt(assignment: nat, user: string) returns (answer: Answer)
      requires DbOk(rules, Contents())
      modifies this`attempts
      ensures (Contents(), answer) == Serial(rules, old(Contents()), Start(assignment, user))
    {
      hide LatestStarted;
      if assignment >= |assignments| || assignments[assignment].user != user { return Refused(NotFound); }
      var e := assignments[assignment].exam;
      if !Published(exams[e]) { return Refused(Draft); }
      var version := exams[e].version;
      var paper := papers[(e, version)];
      var open := LatestStarted(attempts, assignment, user, |attempts|);
      if open.Some? && attempts[open.value].version == version {
        return Opened(open, version, Threshold(paper.passScore));
      }
      attempts := attempts + [Attempt(assignment, user, version, false, map[], NO_MARK, None)];
      answer := Opened(None, version, Threshold(paper.passScore));
    }

    method SubmitAttempt(assignment: nat, user: string, rawKey: string, raw: map<nat, string>) returns (answer: Answer)
      requires DbOk(rules, Contents())
      modifies this`attempts, this`qualifications
      ensures (Contents(), answer) == Serial(rules, old(Contents()), Submit(assignment, user, rawKey, raw))
    {
      UninterruptedNeverAborts(rules, Contents(), Submit(assignment, user, rawKey, raw));
      hide LatestStarted, PriorFrom, GradeSnapshot, AnswerMap, KeyTaken, Trim, KeysOk, QualificationsOk;
      if assignment >= |assignments| || assignments[assignment].user != user { return Refused(NotFound); }
      var e := assignments[assignment].exam;
      if !Published(exams[e]) { return Refused(Draft); }
      var key := Trim(rawKey);
      if key != "" {
        var prior := PriorFrom(attempts, user, key, 0);
        if prior.Some? { return Marked(prior, attempts[prior.value].version, attempts[prior.value].mark); }
      }
      var started := LatestStarted(attempts, assignment, user, |attempts|);
      var version := exams[e].version;
      if started.Some? {
        assert AttemptOk(rules, Contents(), attempts[started.value]);
        version := attempts[started.value].version;
      }
      var answers := AnswerMap(rules, raw);
      var mark := GradeSnapshot(rules, papers[(e, version)], answers);
      var row := Attempt(assignment, user, version, true, answers, mark, if key == "" then None else Some(key));
      var id := |attempts|;
      if started.Some? {
        id := started.value;
        attempts := attempts[id := row];
      } else {
        attempts := attempts + [row];
      }
      if mark.passed {
        qualifications := qualifications[(user, e, version) := Qualification(assignment, id, mark.score, mark.total)];
      }
      answer := Marked(started, version, mark);
    }
  }
}
