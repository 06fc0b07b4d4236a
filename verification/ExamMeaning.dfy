/** What each request does to the exam tables when nothing comes between its reading and its writing. */
module ExamMeaning {
  import opened Prelude
  import opened Exams
  import opened ExamStore

  // ---------- marks ----------

  /** An item is right when something was answered and it is the key's own normal form. */
  ghost predicate Right(rules: Rules, item: Item, answers: map<nat, string>)
  {
    item.id in answers && answers[item.id] != "" && answers[item.id] == rules.normalize(item.answer)
  }

  ghost function RightItems(rules: Rules, items: seq<Item>, answers: map<nat, string>): set<nat>
  {
    set i: nat | i < |items| && Right(rules, items[i], answers)
  }

  /** The score is the number of right items, and the pass is by the rounded share of them, never on an empty paper. */
  lemma MarkMeans(rules: Rules, paper: Paper, answers: map<nat, string>)
    ensures
      var mark := GradeSnapshot(rules, paper, answers);
      && mark.score == |RightItems(rules, paper.items, answers)| && mark.total == |paper.items|
      && (mark.passed <==>
            && paper.items != []
            && rules.percent(mark.score, mark.total) >= if paper.passScore == 0 then 80 else paper.passScore)
  {
    ScoreIsNumber(rules, paper.items, answers);
  }

  lemma {:induction false} ScoreIsNumber(rules: Rules, items: seq<Item>, answers: map<nat, string>)
    ensures Score(rules, items, answers) == |RightItems(rules, items, answers)|
  {
    if items != [] {
      var n := |items| - 1;
      ScoreIsNumber(rules, items[..n], answers);
      var before, last := RightItems(rules, items[..n], answers), if Right(rules, items[n], answers) then {n} else {};
      forall i: nat ensures i in RightItems(rules, items, answers) <==> i in before + last {
        if i < n { assert items[..n][i] == items[i]; }
      }
      assert RightItems(rules, items, answers) == before + last;
    }
  }

  // ---------- papers ----------

  /** A new exam is a draft without items; its pass score is the given one or eighty, from 0 to 100. */
  lemma CreateMeans(rules: Rules, db: Db, given: Option<int>)
    ensures Serial(rules, db, CreateExam(given)) ==
      var passScore := if given.Some? then given.value else 80;
      if passScore < 0 || passScore > 100 then (db, Refused(Invalid))
      else (db.(exams := db.exams + [Exam(passScore, 0, false, [])]), Done)
  {
  }

  /** Items are added behind the others and not yet accepted; accepting one changes nothing else. */
  lemma ItemsMean(rules: Rules, db: Db, e: nat, i: nat, answer: string)
    ensures e >= |db.exams| ==> Serial(rules, db, AddItem(e, answer)) == (db, Refused(NotFound))
    ensures e < |db.exams| && answer == "" ==> Serial(rules, db, AddItem(e, answer)) == (db, Refused(Invalid))
    ensures e < |db.exams| && answer != "" ==>
              var exam := db.exams[e];
              Serial(rules, db, AddItem(e, answer))
              == (db.(exams := db.exams[e := Exam(exam.passScore, exam.version, exam.published, exam.items + [Item(|exam.items|, answer, false)])]), Done)
    ensures !(e < |db.exams| && i < |db.exams[e].items|) ==> Serial(rules, db, AcceptItem(e, i)) == (db, Refused(NotFound))
    ensures e < |db.exams| && i < |db.exams[e].items| ==>
              var exam, item := db.exams[e], db.exams[e].items[i];
              Serial(rules, db, AcceptItem(e, i))
              == (db.(exams := db.exams[e := Exam(exam.passScore, exam.version, exam.published, exam.items[i := Item(item.id, item.answer, true)])]), Done)
  {
  }

  /** Publishing freezes all the exam's items as its next version, and asks that there be some and all be accepted. */
  lemma PublishMeans(rules: Rules, db: Db, e: nat)
    requires DbOk(rules, db)
    ensures e >= |db.exams| ==> Serial(rules, db, Publish(e)) == (db, Refused(NotFound))
    ensures e < |db.exams| ==>
      var exam := db.exams[e];
      if exam.items == [] || exists i :: 0 <= i < |exam.items| && !exam.items[i].accepted
      then Serial(rules, db, Publish(e)) == (db, Refused(Unaccepted))
      else
        var paper := Paper(if exam.passScore == 0 then 80 else exam.passScore, exam.items);
        Serial(rules, db, Publish(e))
        == (db.(papers := db.papers[(e, exam.version + 1) := paper],
                exams := db.exams[e := Exam(exam.passScore, exam.version + 1, true, exam.items)]), Done)
  {
    UninterruptedNeverAborts(rules, db, Publish(e));
    hide AssignmentsOk, AttemptsOk, KeysOk, QualificationsOk;
  }

  /** A user is assigned a published exam once; the second time the first assignment is the answer. */
  lemma AssignMeans(rules: Rules, db: Db, e: nat, user: string, required: bool)
    requires DbOk(rules, db)
    ensures
      var (after, answer) := Serial(rules, db, Assign(e, user, required));
      if e >= |db.exams| then after == db && answer == Refused(NotFound)
      else if !db.exams[e].published || db.exams[e].version == 0 then after == db && answer == Refused(Draft)
      else if user !in db.users then after == db && answer == Refused(NotFound)
      else if exists a :: 0 <= a < |db.assignments| && db.assignments[a].exam == e && db.assignments[a].user == user
      then after == db && answer.AlreadyAssigned? && answer.assignment < |db.assignments|
           && db.assignments[answer.assignment].exam == e && db.assignments[answer.assignment].user == user
      else after == db.(assignments := db.assignments + [Assignment(e, user, required)]) && answer == Done
  {
    hide DbOk;
  }

  // ---------- attempts ----------

  ghost predicate IsOpen(row: Attempt, assignment: nat, user: string)
  {
    row.assignment == assignment && row.user == user && !row.graded
  }

  /** The newest open attempt of a user's assignment. */
  ghost predicate LastOpen(attempts: seq<Attempt>, assignment: nat, user: string, id: Option<nat>)
  {
    match id
    case None => forall i :: 0 <= i < |attempts| ==> !IsOpen(attempts[i], assignment, user)
    case Some(at) => at < |attempts| && IsOpen(attempts[at], assignment, user)
                     && forall i :: at < i < |attempts| ==> !IsOpen(attempts[i], assignment, user)
  }

  lemma LatestIsLast(attempts: seq<Attempt>, assignment: nat, user: string, id: Option<nat>)
    requires LastOpen(attempts, assignment, user, id)
    ensures LatestStarted(attempts, assignment, user, |attempts|) == id
  {
    hide LatestStarted;
    var found := LatestStarted(attempts, assignment, user, |attempts|);
    if id.Some? { assert IsOpen(attempts[id.value], assignment, user); }
    if found.Some? { assert IsOpen(attempts[found.value], assignment, user); }
  }

  ghost predicate Mine(db: Db, assignment: nat, user: string)
  {
    assignment < |db.assignments| && db.assignments[assignment].user == user
  }

  /** An assignment on good tables is of a published exam whose current paper is there. */
  lemma AssignedIsPublished(rules: Rules, db: Db, assignment: nat)
    requires DbOk(rules, db) && assignment < |db.assignments|
    ensures
      var e := db.assignments[assignment].exam;
      && e < |db.exams| && db.exams[e].published && db.exams[e].version > 0
      && (e, db.exams[e].version) in db.papers && db.papers[(e, db.exams[e].version)].items != []
  {
    hide AttemptsOk, KeysOk, QualificationsOk;
  }

  /** Starting again goes on with the newest open attempt while the paper is the same; otherwise a new one is opened. */
  lemma StartMeans(rules: Rules, db: Db, assignment: nat, user: string, open: Option<nat>)
    requires DbOk(rules, db) && LastOpen(db.attempts, assignment, user, open)
    ensures !Mine(db, assignment, user) ==> Serial(rules, db, Start(assignment, user)) == (db, Refused(NotFound))
    ensures Mine(db, assignment, user) ==>
      var e := db.assignments[assignment].exam;
      && e < |db.exams| && (e, db.exams[e].version) in db.papers
      && var version := db.exams[e].version;
         var paper := db.papers[(e, version)];
         var passScore := if paper.passScore == 0 then 80 else paper.passScore;
         Serial(rules, db, Start(assignment, user)) ==
           if open.Some? && db.attempts[open.value].version == version then (db, Opened(open, version, passScore))
           else (db.(attempts := db.attempts + [Attempt(assignment, user, version, false, map[], Mark(0, 0, false), None)]),
                 Opened(None, version, passScore))
  {
    LatestIsLast(db.attempts, assignment, user, open);
    if assignment < |db.assignments| { AssignedIsPublished(rules, db, assignment); }
    hide DbOk, LatestStarted;
  }

  /** The answers as they are kept: every one given, in its normal form. */
  ghost predicate Normal(rules: Rules, raw: map<nat, string>, answers: map<nat, string>)
  {
    && (forall id :: id in answers <==> id in raw)
    && (forall id :: id in raw ==> answers[id] == rules.normalize(raw[id]))
  }

  /** A key that names a graded attempt of the user is answered from that attempt. */
  lemma KeyedSubmitReplays(rules: Rules, db: Db, assignment: nat, user: string, rawKey: string, raw: map<nat, string>, i: nat)
    requires DbOk(rules, db) && Mine(db, assignment, user) && Trim(rawKey) != ""
    requires i < |db.attempts| && db.attempts[i].graded && db.attempts[i].user == user && db.attempts[i].key == Some(Trim(rawKey))
    ensures Serial(rules, db, Submit(assignment, user, rawKey, raw)) == (db, Marked(Some(i), db.attempts[i].version, db.attempts[i].mark))
  {
    AssignedIsPublished(rules, db, assignment);
    hide Trim, PriorFrom, LatestStarted, GradeSnapshot, AnswerMap, PapersOk, AssignmentsOk, AttemptsOk, QualificationsOk;
    var prior := PriorFrom(db.attempts, user, Trim(rawKey), 0);
    OneRowPerKey(db, prior.value, i);
  }

  lemma OneRowPerKey(db: Db, i: nat, j: nat)
    requires KeysOk(db) && i < |db.attempts| && j < |db.attempts|
    requires db.attempts[i].key.Some? && db.attempts[i].key == db.attempts[j].key && db.attempts[i].user == db.attempts[j].user
    ensures i == j
  {
  }

  /**
   * Any other submission grades the newest open attempt on that attempt's own version, or one more attempt on the
   * current version: the answers in normal form, their mark on that version's paper, and the key or none; a pass is
   * recorded as the user's qualification for that exam and version.
   */
  lemma SubmitMeans(rules: Rules, db: Db, assignment: nat, user: string, rawKey: string, raw: map<nat, string>, open: Option<nat>)
    requires DbOk(rules, db) && LastOpen(db.attempts, assignment, user, open)
    requires AllSpace(rawKey) || forall i :: 0 <= i < |db.attempts| && db.attempts[i].graded && db.attempts[i].user == user ==>
                                       db.attempts[i].key != Some(Trim(rawKey))
    ensures !Mine(db, assignment, user) ==> Serial(rules, db, Submit(assignment, user, rawKey, raw)) == (db, Refused(NotFound))
    ensures Mine(db, assignment, user) ==>
      var e := db.assignments[assignment].exam;
      && e < |db.exams|
      && var version := if open.Some? then db.attempts[open.value].version else db.exams[e].version;
         && (e, version) in db.papers
         && exists answers :: Normal(rules, raw, answers) &&
              var mark := GradeSnapshot(rules, db.papers[(e, version)], answers);
              var row := Attempt(assignment, user, version, true, answers, mark, if AllSpace(rawKey) then None else Some(Trim(rawKey)));
              var id := if open.Some? then open.value else |db.attempts|;
              Serial(rules, db, Submit(assignment, user, rawKey, raw)) ==
                (db.(attempts := if open.Some? then db.attempts[id := row] else db.attempts + [row],
                     qualifications := if mark.passed
                                       then db.qualifications[(user, e, version) := Qualification(assignment, id, mark.score, mark.total)]
                                       else db.qualifications),
                 Marked(open, version, mark))
  {
    TrimIsEmpty(rawKey);
    LatestIsLast(db.attempts, assignment, user, open);
    UninterruptedNeverAborts(rules, db, Submit(assignment, user, rawKey, raw));
    if assignment < |db.assignments| { AssignedIsPublished(rules, db, assignment); }
    if open.Some? { OpenHasPaper(rules, db, open.value); }
    assert Normal(rules, raw, AnswerMap(rules, raw));
    hide DbOk, LatestStarted, PriorFrom, GradeSnapshot, AnswerMap, Trim, AllSpace, KeyTaken, Normal;
  }

  lemma OpenHasPaper(rules: Rules, db: Db, i: nat)
    requires DbOk(rules, db) && i < |db.attempts|
    ensures
      var row := db.attempts[i];
      && row.assignment < |db.assignments| && row.version > 0
      && (db.assignments[row.assignment].exam, row.version) in db.papers
      && db.papers[(db.assignments[row.assignment].exam, row.version)].items != []
  {
    assert AttemptOk(rules, db, db.attempts[i]);
    hide GradeSnapshot, KeysOk, QualificationsOk;
  }
}
