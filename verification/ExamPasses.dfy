/** Exactly when an interleaved run keeps graded attempts, passes and qualifications, and when it loses them. */
module ExamPasses {
  import opened Prelude
  import opened Exams

  // ---------- the moves of a run, one by one ----------

  ghost function DbAt(rules: Rules, start: Db, run: seq<Move>, n: nat): Db
    requires n <= |run|
  {
    After(rules, start, run[..n]).db
  }

  /** What the n-th move of a run writes: nothing for a move that only reads or names no plan. */
  ghost function WriteAt(rules: Rules, start: Db, run: seq<Move>, n: nat): Write
    requires n < |run|
  {
    var s := After(rules, start, run[..n]);
    if run[n].Finish? && run[n].plan < |s.plans| then s.plans[run[n].plan] else Nothing
  }

  lemma StepAt(rules: Rules, start: Db, run: seq<Move>, n: nat)
    requires DbOk(rules, start) && n < |run|
    ensures DbOk(rules, DbAt(rules, start, run, n)) && WriteOk(rules, DbAt(rules, start, run, n), WriteAt(rules, start, run, n))
    ensures DbAt(rules, start, run, n + 1) == Apply(DbAt(rules, start, run, n), WriteAt(rules, start, run, n))
  {
    hide DbOk, WriteOk, Apply, Plan, Extends;
    RunKeepsSystem(rules, start, run[..n], 0);
    NothingIsOk(rules, DbAt(rules, start, run, n));
    NothingIsApplied(DbAt(rules, start, run, n));
    assert run[..n + 1][..n] == run[..n];
  }

  lemma NothingIsApplied(db: Db)
    ensures Apply(db, Nothing) == db
  {
  }

  lemma DbAtIsOk(rules: Rules, start: Db, run: seq<Move>, n: nat)
    requires DbOk(rules, start) && n <= |run|
    ensures DbOk(rules, DbAt(rules, start, run, n))
  {
    RunKeepsSystem(rules, start, run[..n], 0);
  }

  // ---------- graded rows ----------

  /** The write puts another row in place of a graded one: it is not open any more, no index refuses the write, the rows differ. */
  ghost predicate Regrades(db: Db, write: Write)
  {
    && write.GradeAttempt? && write.id < |db.attempts| && db.attempts[write.id].graded
    && db.attempts[write.id] != write.attempt && !KeyTaken(db.attempts, write.attempt, write.id)
  }

  lemma StepKeepsGradedExactlyWhen(rules: Rules, db: Db, write: Write)
    requires WriteOk(rules, db, write)
    ensures GradedStay(db, Apply(db, write)) <==> !Regrades(db, write)
  {
    hide AttemptOk, KeyTaken;
    if write.GradeAttempt? {
      GradedOwner(rules, db, write.attempt);
      if Regrades(db, write) { assert Apply(db, write).attempts[write.id] == write.attempt; }
    }
  }

  ghost predicate RunKeepsGraded(rules: Rules, start: Db, run: seq<Move>)
  {
    forall i, j :: 0 <= i <= j <= |run| ==> GradedStay(DbAt(rules, start, run, i), DbAt(rules, start, run, j))
  }

  ghost predicate NeverRegrades(rules: Rules, start: Db, run: seq<Move>)
  {
    forall n :: 0 <= n < |run| ==> !Regrades(DbAt(rules, start, run, n), WriteAt(rules, start, run, n))
  }

  /**
   * A run keeps every graded row, from any point of it to any later one, exactly when each of its grading writes finds
   * its row open, is refused by the index on keys, or writes the row that is stored already.
   */
  lemma GradedRowsAreFinalExactlyWhen(rules: Rules, start: Db, run: seq<Move>)
    requires DbOk(rules, start)
    ensures RunKeepsGraded(rules, start, run) <==> NeverRegrades(rules, start, run)
  {
    hide DbOk, WriteOk, Apply, Regrades, GradedStay, DbAt, WriteAt;
    forall n | 0 <= n < |run|
      ensures GradedStay(DbAt(rules, start, run, n), DbAt(rules, start, run, n + 1)) <==> !Regrades(DbAt(rules, start, run, n), WriteAt(rules, start, run, n))
    {
      StepAt(rules, start, run, n);
      StepKeepsGradedExactlyWhen(rules, DbAt(rules, start, run, n), WriteAt(rules, start, run, n));
    }
    if NeverRegrades(rules, start, run) {
      forall i, j | 0 <= i <= j <= |run| ensures GradedStay(DbAt(rules, start, run, i), DbAt(rules, start, run, j)) {
        GradedStayBetween(rules, start, run, i, j);
      }
    } else {
      var n :| 0 <= n < |run| && Regrades(DbAt(rules, start, run, n), WriteAt(rules, start, run, n));
      assert !GradedStay(DbAt(rules, start, run, n), DbAt(rules, start, run, n + 1));
    }
  }

  lemma {:induction false} GradedStayBetween(rules: Rules, start: Db, run: seq<Move>, i: nat, j: nat)
    requires DbOk(rules, start) && NeverRegrades(rules, start, run) && i <= j <= |run|
    ensures GradedStay(DbAt(rules, start, run, i), DbAt(rules, start, run, j))
    decreases j - i
  {
    hide DbOk, WriteOk, Apply, Regrades, GradedStay, DbAt, WriteAt;
    if i == j {
      GradedStaySelf(DbAt(rules, start, run, i));
    } else {
      GradedStayBetween(rules, start, run, i, j - 1);
      StepAt(rules, start, run, j - 1);
      StepKeepsGradedExactlyWhen(rules, DbAt(rules, start, run, j - 1), WriteAt(rules, start, run, j - 1));
      GradedStayIsTransitive(DbAt(rules, start, run, i), DbAt(rules, start, run, j - 1), DbAt(rules, start, run, j));
    }
  }

  /** Submitting again under a key that already has a graded attempt writes nothing and answers with that attempt's mark. */
  lemma ResubmissionReplays(rules: Rules, start: Db, run: seq<Move>, i: nat, id: nat, assignment: nat, key: string, raw: map<nat, string>)
    requires DbOk(rules, start) && NeverRegrades(rules, start, run) && i <= |run|
    requires
      var before := DbAt(rules, start, run, i);
      id < |before.attempts| && before.attempts[id].graded && before.attempts[id].key == Some(Trim(key)) && Trim(key) != ""
    requires Owns(DbAt(rules, start, run, |run|), assignment, DbAt(rules, start, run, i).attempts[id].user)
    ensures
      var before, later := DbAt(rules, start, run, i), DbAt(rules, start, run, |run|);
      PlanSubmit(rules, later, assignment, before.attempts[id].user, key, raw)
        == (Nothing, Marked(Some(id), before.attempts[id].version, before.attempts[id].mark))
  {
    GradedStayBetween(rules, start, run, i, |run|);
    DbAtIsOk(rules, start, run, |run|);
    hide DbAt, Trim, GradeSnapshot, AnswerMap;
    var before, later := DbAt(rules, start, run, i), DbAt(rules, start, run, |run|);
    assert later.attempts[id] == before.attempts[id];
    var prior := PriorFrom(later.attempts, before.attempts[id].user, Trim(key), 0);
    assert prior.Some?;
    assert prior.value == id;
  }

  // ---------- passes ----------

  ghost predicate PassesFor(db: Db, i: nat, a: nat)
  {
    && i < |db.attempts| && a < |db.assignments| && db.attempts[i].assignment == a
    && db.attempts[i].user == db.assignments[a].user && db.attempts[i].graded && db.attempts[i].mark.passed
  }

  /** The write fails, unrefused, the one attempt that passes the assignment. */
  ghost predicate LosesLastPass(db: Db, write: Write, a: nat)
  {
    && write.GradeAttempt? && PassesFor(db, write.id, a) && !write.attempt.mark.passed
    && !KeyTaken(db.attempts, write.attempt, write.id) && forall i: nat :: i != write.id ==> !PassesFor(db, i, a)
  }

  lemma PassedMeans(db: Db, a: nat)
    requires a < |db.assignments|
    ensures PassedAssignment(db, a) <==> exists i: nat :: PassesFor(db, i, a)
  {
    if PassedAssignment(db, a) {
      var i :| 0 <= i < |db.attempts| && db.attempts[i].assignment == a && db.attempts[i].user == db.assignments[a].user
               && db.attempts[i].graded && db.attempts[i].mark.passed;
      assert PassesFor(db, i, a);
    }
  }

  lemma RowsAfter(rules: Rules, db: Db, write: Write, i: nat)
    requires WriteOk(rules, db, write) && i < |db.attempts|
    ensures
      var later := Apply(db, write);
      && |db.attempts| <= |later.attempts|
      && later.attempts[i] == if write.GradeAttempt? && write.id == i && !KeyTaken(db.attempts, write.attempt, i) then write.attempt else db.attempts[i]
  {
    hide AttemptOk, KeyTaken;
    if write.GradeAttempt? { GradedOwner(rules, db, write.attempt); }
  }

  lemma LastPassIsLost(rules: Rules, db: Db, write: Write, a: nat)
    requires DbOk(rules, db) && WriteOk(rules, db, write) && LosesLastPass(db, write, a)
    ensures a < |Apply(db, write).assignments| && !PassedAssignment(Apply(db, write), a)
  {
    var later := Apply(db, write);
    ApplyExtends(rules, db, write);
    OnlyOldRows(db, write);
    hide DbOk, WriteOk, KeyTaken, Apply;
    PassedMeans(later, a);
    forall i: nat ensures !PassesFor(later, i, a) {
      if i < |db.attempts| {
        RowsAfter(rules, db, write, i);
        assert i != write.id ==> !PassesFor(db, i, a);
      }
    }
  }

  lemma OtherPassesStay(rules: Rules, db: Db, write: Write, a: nat)
    requires DbOk(rules, db) && WriteOk(rules, db, write) && a < |db.assignments| && PassedAssignment(db, a)
    requires !LosesLastPass(db, write, a)
    ensures a < |Apply(db, write).assignments| && PassedAssignment(Apply(db, write), a)
  {
    var later := Apply(db, write);
    ApplyExtends(rules, db, write);
    PassedMeans(db, a);
    PassedMeans(later, a);
    hide DbOk, KeyTaken, Apply, PassedAssignment;
    var i: nat :| PassesFor(db, i, a);
    if write.GradeAttempt? && i == write.id && !write.attempt.mark.passed && !KeyTaken(db.attempts, write.attempt, write.id) {
      var j: nat :| j != i && PassesFor(db, j, a);
      i := j;
    }
    RowsAfter(rules, db, write, i);
    assert PassesFor(later, i, a);
  }

  lemma OnlyOldRows(db: Db, write: Write)
    requires write.GradeAttempt?
    ensures |Apply(db, write).attempts| == |db.attempts|
  {
    hide KeyTaken;
  }

  ghost predicate CountedMissing(db: Db, a: nat, user: string)
  {
    AssignmentsOk(db) && a in Missing(db, user)
  }

  lemma MissingMeans(rules: Rules, db: Db, a: nat, user: string)
    requires DbOk(rules, db) && a < |db.assignments|
    ensures CountedMissing(db, a, user) <==> db.assignments[a].user == user && db.assignments[a].required && !PassedAssignment(db, a)
  {
    hide PassedAssignment, AttemptsOk, KeysOk, QualificationsOk;
  }

  /** A passed assignment is counted missing after one write exactly when it is required and the write fails its only passing attempt. */
  lemma BecomesMissingExactlyWhen(rules: Rules, db: Db, write: Write, a: nat)
    requires DbOk(rules, db) && WriteOk(rules, db, write) && a < |db.assignments| && PassedAssignment(db, a)
    ensures CountedMissing(Apply(db, write), a, db.assignments[a].user) <==> db.assignments[a].required && LosesLastPass(db, write, a)
  {
    ApplyKeepsAll(rules, db, write);
    hide DbOk, WriteOk, Apply, PassedAssignment, LosesLastPass, CountedMissing;
    MissingMeans(rules, Apply(db, write), a, db.assignments[a].user);
    if LosesLastPass(db, write, a) {
      LastPassIsLost(rules, db, write, a);
    } else {
      OtherPassesStay(rules, db, write, a);
    }
  }

  ghost predicate PassedAt(rules: Rules, start: Db, run: seq<Move>, n: nat, a: nat)
    requires n <= |run|
  {
    a < |DbAt(rules, start, run, n).assignments| && PassedAssignment(DbAt(rules, start, run, n), a)
  }

  /** Once passed, an assignment is counted missing for no one at any later point of the run. */
  ghost predicate RunKeepsPasses(rules: Rules, start: Db, run: seq<Move>)
  {
    forall i, j, a: nat, user :: 0 <= i <= j <= |run| && PassedAt(rules, start, run, i, a) ==>
      !CountedMissing(DbAt(rules, start, run, j), a, user)
  }

  ghost predicate TakesPass(rules: Rules, start: Db, run: seq<Move>, n: nat, a: nat)
    requires n < |run|
  {
    var db := DbAt(rules, start, run, n);
    a < |db.assignments| && db.assignments[a].required && LosesLastPass(db, WriteAt(rules, start, run, n), a)
  }

  ghost predicate NeverTakesPass(rules: Rules, start: Db, run: seq<Move>)
  {
    forall n, a: nat :: 0 <= n < |run| ==> !TakesPass(rules, start, run, n, a)
  }

  lemma PassTaken(rules: Rules, start: Db, run: seq<Move>, n: nat, a: nat)
    requires DbOk(rules, start) && n < |run| && TakesPass(rules, start, run, n, a)
    ensures !RunKeepsPasses(rules, start, run)
  {
    StepAt(rules, start, run, n);
    hide DbOk, WriteOk, Apply, CountedMissing, DbAt, WriteAt;
    var db := DbAt(rules, start, run, n);
    PassedMeans(db, a);
    assert PassesFor(db, WriteAt(rules, start, run, n).id, a);
    BecomesMissingExactlyWhen(rules, db, WriteAt(rules, start, run, n), a);
    assert PassedAt(rules, start, run, n, a);
    assert CountedMissing(DbAt(rules, start, run, n + 1), a, db.assignments[a].user);
  }

  lemma AssignmentStays(rules: Rules, db: Db, write: Write, a: nat)
    requires DbOk(rules, db) && WriteOk(rules, db, write) && a < |db.assignments|
    ensures a < |Apply(db, write).assignments| && Apply(db, write).assignments[a] == db.assignments[a]
  {
    hide DbOk, WriteOk, Apply;
    ApplyExtends(rules, db, write);
  }

  lemma {:induction false} PassKept(rules: Rules, start: Db, run: seq<Move>, i: nat, j: nat, a: nat)
    requires DbOk(rules, start) && NeverTakesPass(rules, start, run) && i <= j <= |run|
    requires PassedAt(rules, start, run, i, a) && DbAt(rules, start, run, i).assignments[a].required
    ensures PassedAt(rules, start, run, j, a) && DbAt(rules, start, run, j).assignments[a].required
    decreases j - i
  {
    hide DbOk, WriteOk, Apply, LosesLastPass, DbAt, WriteAt, PassedAssignment;
    if i < j {
      PassKept(rules, start, run, i, j - 1, a);
      StepAt(rules, start, run, j - 1);
      var db, write := DbAt(rules, start, run, j - 1), WriteAt(rules, start, run, j - 1);
      AssignmentStays(rules, db, write, a);
      assert !TakesPass(rules, start, run, j - 1, a);
      OtherPassesStay(rules, db, write, a);
    }
  }

  lemma NotRequiredStays(rules: Rules, start: Db, run: seq<Move>, i: nat, j: nat, a: nat)
    requires DbOk(rules, start) && i <= j <= |run| && a < |DbAt(rules, start, run, i).assignments|
    ensures a < |DbAt(rules, start, run, j).assignments|
    ensures DbAt(rules, start, run, j).assignments[a] == DbAt(rules, start, run, i).assignments[a]
  {
    hide After;
    RunKeepsSystem(rules, start, run[..j], i);
    assert run[..j][..i] == run[..i];
  }

  /**
   * Once passed, never counted missing again, whatever is published or submitted: this holds over a run exactly when
   * none of its writes fails the only passing attempt of a required assignment.
   */
  lemma OncePassedNeverMissingExactlyWhen(rules: Rules, start: Db, run: seq<Move>)
    requires DbOk(rules, start)
    ensures RunKeepsPasses(rules, start, run) <==> NeverTakesPass(rules, start, run)
  {
    hide DbOk, DbAt, WriteAt, CountedMissing, PassedAssignment, TakesPass;
    if NeverTakesPass(rules, start, run) {
      forall i, j, a: nat, user | 0 <= i <= j <= |run| && PassedAt(rules, start, run, i, a)
        ensures !CountedMissing(DbAt(rules, start, run, j), a, user)
      {
        NotRequiredStays(rules, start, run, i, j, a);
        DbAtIsOk(rules, start, run, j);
        MissingMeans(rules, DbAt(rules, start, run, j), a, user);
        if DbAt(rules, start, run, i).assignments[a].required { PassKept(rules, start, run, i, j, a); }
      }
    } else {
      var n: nat, a: nat :| n < |run| && TakesPass(rules, start, run, n, a);
      PassTaken(rules, start, run, n, a);
    }
  }

  // ---------- qualifications ----------

  /** The write fails, unrefused, the attempt that a qualification rests on. */
  ghost predicate Orphans(db: Db, write: Write)
  {
    && write.GradeAttempt? && write.attempt.assignment < |db.assignments| && !write.attempt.mark.passed
    && !KeyTaken(db.attempts, write.attempt, write.id)
    && var k := (write.attempt.user, db.assignments[write.attempt.assignment].exam, write.attempt.version);
       k in db.qualifications && db.qualifications[k].attempt == write.id
  }

  lemma OrphanIsLeft(rules: Rules, db: Db, write: Write)
    requires WriteOk(rules, db, write) && Orphans(db, write)
    ensures !QualificationsPassed(Apply(db, write))
  {
    var k := (write.attempt.user, db.assignments[write.attempt.assignment].exam, write.attempt.version);
    hide KeyTaken, AttemptOk;
    var later := Apply(db, write);
    assert k in later.qualifications && later.attempts[later.qualifications[k].attempt] == write.attempt;
  }

  ghost predicate RestsOnPass(db: Db, k: (string, nat, nat))
    requires k in db.qualifications
  {
    var q := db.qualifications[k];
    q.attempt < |db.attempts| && db.attempts[q.attempt].mark == Mark(q.score, q.total, true)
  }

  lemma NewQualificationRestsOnPass(rules: Rules, db: Db, write: Write, k: (string, nat, nat))
    requires WriteOk(rules, db, write) && k in Apply(db, write).qualifications
    requires k !in db.qualifications || Apply(db, write).qualifications[k] != db.qualifications[k]
    ensures RestsOnPass(Apply(db, write), k)
  {
    hide KeyTaken, GradeSnapshot, AttemptOk;
  }

  lemma OldQualificationRestsOnPass(rules: Rules, db: Db, write: Write, k: (string, nat, nat))
    requires DbOk(rules, db) && WriteOk(rules, db, write) && !Orphans(db, write)
    requires k in db.qualifications && RestsOnPass(db, k)
    requires k in Apply(db, write).qualifications && Apply(db, write).qualifications[k] == db.qualifications[k]
    ensures RestsOnPass(Apply(db, write), k)
  {
    assert QualificationOk(db, k);
    RowsAfter(rules, db, write, db.qualifications[k].attempt);
    hide PapersOk, AssignmentsOk, AttemptsOk, KeysOk, KeyTaken, GradeSnapshot, AttemptOk;
  }

  lemma OthersStayQualified(rules: Rules, db: Db, write: Write)
    requires DbOk(rules, db) && WriteOk(rules, db, write) && QualificationsPassed(db) && !Orphans(db, write)
    ensures QualificationsPassed(Apply(db, write))
  {
    hide DbOk, WriteOk, Orphans, Apply;
    var later := Apply(db, write);
    forall k | k in later.qualifications ensures RestsOnPass(later, k) {
      if k in db.qualifications && later.qualifications[k] == db.qualifications[k] {
        OldQualificationRestsOnPass(rules, db, write, k);
      } else {
        NewQualificationRestsOnPass(rules, db, write, k);
      }
    }
  }

  lemma StepKeepsQualificationsExactlyWhen(rules: Rules, db: Db, write: Write)
    requires DbOk(rules, db) && WriteOk(rules, db, write) && QualificationsPassed(db)
    ensures QualificationsPassed(Apply(db, write)) <==> !Orphans(db, write)
  {
    hide DbOk, WriteOk, QualificationsPassed, Orphans;
    if Orphans(db, write) {
      OrphanIsLeft(rules, db, write);
    } else {
      OthersStayQualified(rules, db, write);
    }
  }

  ghost predicate NeverOrphans(rules: Rules, start: Db, run: seq<Move>)
  {
    forall n :: 0 <= n < |run| ==> !Orphans(DbAt(rules, start, run, n), WriteAt(rules, start, run, n))
  }

  /**
   * Every qualification rests on an attempt that passed with its score, all along a run, exactly when no write of the
   * run fails the attempt that a qualification rests on.
   */
  lemma QualificationsRestOnPassesExactlyWhen(rules: Rules, start: Db, run: seq<Move>)
    requires DbOk(rules, start) && QualificationsPassed(start)
    ensures (forall n :: 0 <= n <= |run| ==> QualificationsPassed(DbAt(rules, start, run, n))) <==> NeverOrphans(rules, start, run)
  {
    hide DbOk, WriteOk, Apply, Orphans, QualificationsPassed, DbAt, WriteAt;
    if NeverOrphans(rules, start, run) {
      forall n | 0 <= n <= |run| ensures QualificationsPassed(DbAt(rules, start, run, n)) {
        QualifiedUpTo(rules, start, run, n);
      }
    } else {
      var n :| 0 <= n < |run| && Orphans(DbAt(rules, start, run, n), WriteAt(rules, start, run, n));
      StepAt(rules, start, run, n);
      OrphanIsLeft(rules, DbAt(rules, start, run, n), WriteAt(rules, start, run, n));
      assert !QualificationsPassed(DbAt(rules, start, run, n + 1));
    }
  }

  lemma {:induction false} QualifiedUpTo(rules: Rules, start: Db, run: seq<Move>, n: nat)
    requires DbOk(rules, start) && QualificationsPassed(start) && NeverOrphans(rules, start, run) && n <= |run|
    ensures QualificationsPassed(DbAt(rules, start, run, n))
  {
    hide DbOk, WriteOk, Apply, Orphans, QualificationsPassed, WriteAt;
    if n == 0 {
      assert run[..0] == [];
    } else {
      QualifiedUpTo(rules, start, run, n - 1);
      StepAt(rules, start, run, n - 1);
      StepKeepsQualificationsExactlyWhen(rules, DbAt(rules, start, run, n - 1), WriteAt(rules, start, run, n - 1));
    }
  }

  // ---------- the guard is enough ----------

  /** A grading write that asks for its row to be open does none of the three. */
  lemma GuardIsEnough(rules: Rules, db: Db, write: Write, a: nat)
    requires DbOk(rules, db) && WriteOk(rules, db, write) && Guarded(db, write)
    ensures !Regrades(db, write) && !LosesLastPass(db, write, a) && !Orphans(db, write)
  {
    hide GradeSnapshot, AttemptOk, PapersOk, AssignmentsOk, AttemptsOk, KeysOk;
    assert forall k :: k in db.qualifications ==> QualificationOk(db, k);
  }

  /**
   * So in a run whose grading writes all find their rows open, graded rows are final, no assignment once passed is
   * counted missing again, and every qualification keeps its pass.
   */
  lemma GuardedRunsLoseNothing(rules: Rules, start: Db, run: seq<Move>)
    requires DbOk(rules, start) && GuardedRun(rules, start, run)
    ensures NeverRegrades(rules, start, run) && NeverTakesPass(rules, start, run) && NeverOrphans(rules, start, run)
    ensures RunKeepsGraded(rules, start, run) && RunKeepsPasses(rules, start, run)
    ensures QualificationsPassed(start) ==> forall n :: 0 <= n <= |run| ==> QualificationsPassed(DbAt(rules, start, run, n))
  {
    hide DbOk, WriteOk, Apply, Guarded, Regrades, LosesLastPass, Orphans, QualificationsPassed, RunKeepsGraded, RunKeepsPasses;
    forall n, a: nat | 0 <= n < |run|
      ensures !Regrades(DbAt(rules, start, run, n), WriteAt(rules, start, run, n))
      ensures !Orphans(DbAt(rules, start, run, n), WriteAt(rules, start, run, n))
      ensures !TakesPass(rules, start, run, n, a)
    {
      StepAt(rules, start, run, n);
      WriteIsGuarded(rules, start, run, n);
      hide DbAt, WriteAt;
      GuardIsEnough(rules, DbAt(rules, start, run, n), WriteAt(rules, start, run, n), a);
    }
    hide DbAt, WriteAt, TakesPass;
    forall n | 0 <= n < |run|
      ensures !Regrades(DbAt(rules, start, run, n), WriteAt(rules, start, run, n)) && !Orphans(DbAt(rules, start, run, n), WriteAt(rules, start, run, n))
    {
      assert !TakesPass(rules, start, run, n, 0);
    }
    GradedRowsAreFinalExactlyWhen(rules, start, run);
    OncePassedNeverMissingExactlyWhen(rules, start, run);
    if QualificationsPassed(start) { QualificationsRestOnPassesExactlyWhen(rules, start, run); }
  }

  lemma WriteIsGuarded(rules: Rules, start: Db, run: seq<Move>, n: nat)
    requires GuardedRun(rules, start, run) && n < |run|
    ensures Guarded(DbAt(rules, start, run, n), WriteAt(rules, start, run, n))
  {
  }
}
