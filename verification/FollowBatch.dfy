/** Following a batch of candidates: screen each one, follow the admitted ones in the pool, and account for all. */
module FollowBatch {
  import opened Prelude
  import opened WorkerPool

  const FOLLOW_BATCH_CONCURRENCY := 3

  /** What the screening reads about a candidate from the database and the filters of its request. */
  datatype Facts = Facts(homeKind: bool, dismissed: bool, filterFailure: Option<string>, followed: bool, realCollaboration: bool)

  datatype Screening = Failing(code: string) | Duplicate | Admitted

  function Screen(facts: Facts): Screening
  {
    if facts.homeKind then Failing("home_discovery_follow_forbidden")
    else if facts.dismissed then Failing("candidate_dismissed")
    else if facts.filterFailure.Some? then Failing(facts.filterFailure.value)
    else if facts.followed && facts.realCollaboration then Duplicate
    else Admitted
  }

  /** How following one admitted candidate ended. */
  datatype Ending = Followed | SkippedDuplicate | FailedWith(code: string)

  datatype Consent = PreviewOnly | Confirmed | Unconfirmed

  datatype Failure<C> = Failure(candidate: C, code: string)

  datatype Result<C> = Result(preview: seq<C>, followed: seq<C>, failed: seq<Failure<C>>, skipped: seq<C>)

  ghost function Candidates<C>(failures: seq<Failure<C>>): seq<C>
  {
    if failures == [] then []
    else Candidates(failures[..|failures| - 1]) + [failures[|failures| - 1].candidate]
  }

  lemma {:induction false} CandidatesAppend<C>(a: seq<Failure<C>>, b: seq<Failure<C>>)
    ensures Candidates(a + b) == Candidates(a) + Candidates(b)
  {
    if b == [] {
      assert a + b == a;
    } else {
      assert (a + b)[..|a + b| - 1] == a + b[..|b| - 1];
      CandidatesAppend(a, b[..|b| - 1]);
    }
  }

  /** Everyone who is in one of the lists, as often as they are in it. */
  ghost function Accounted<C>(first: seq<C>, failed: seq<Failure<C>>, skipped: seq<C>): multiset<C>
  {
    multiset(first) + multiset(Candidates(failed)) + multiset(skipped)
  }

  lemma OneMore<C>(first: seq<C>, failed: seq<Failure<C>>, skipped: seq<C>, c: C, code: string)
    ensures Accounted(first + [c], failed, skipped) == Accounted(first, failed, skipped) + multiset{c}
    ensures Accounted(first, failed, skipped + [c]) == Accounted(first, failed, skipped) + multiset{c}
    ensures Accounted(first, failed + [Failure(c, code)], skipped) == Accounted(first, failed, skipped) + multiset{c}
  {
    assert (failed + [Failure(c, code)])[..|failed|] == failed;
  }

  // ---------- screening ----------

  ghost function AdmittedOf<C>(candidates: seq<C>, facts: C -> Facts): seq<C>
  {
    if candidates == [] then []
    else
      var c := candidates[|candidates| - 1];
      AdmittedOf(candidates[..|candidates| - 1], facts) + if Screen(facts(c)) == Admitted then [c] else []
  }

  ghost function DuplicatesOf<C>(candidates: seq<C>, facts: C -> Facts): seq<C>
  {
    if candidates == [] then []
    else
      var c := candidates[|candidates| - 1];
      DuplicatesOf(candidates[..|candidates| - 1], facts) + if Screen(facts(c)) == Duplicate then [c] else []
  }

  ghost function FailuresOf<C>(candidates: seq<C>, facts: C -> Facts): seq<Failure<C>>
  {
    if candidates == [] then []
    else
      var c := candidates[|candidates| - 1];
      FailuresOf(candidates[..|candidates| - 1], facts)
      + match Screen(facts(c)) { case Failing(code) => [Failure(c, code)] case _ => [] }
  }

  /** Screening puts each candidate in exactly one list. */
  lemma {:induction false} ScreeningAccounts<C>(candidates: seq<C>, facts: C -> Facts)
    ensures Accounted(AdmittedOf(candidates, facts), FailuresOf(candidates, facts), DuplicatesOf(candidates, facts)) == multiset(candidates)
  {
    hide Accounted, Screen;
    if candidates != [] {
      var before := candidates[..|candidates| - 1];
      var c := candidates[|candidates| - 1];
      var a, f, d := AdmittedOf(before, facts), FailuresOf(before, facts), DuplicatesOf(before, facts);
      ScreeningAccounts(before, facts);
      assert candidates == before + [c];
      AppendNothing(a, f, d);
      match Screen(facts(c)) {
        case Failing(code) => OneMore(a, f, d, c, code);
        case Duplicate => OneMore(a, f, d, c, "");
        case Admitted => OneMore(a, f, d, c, "");
      }
    } else {
      NobodyAccounted<C>();
    }
  }

  lemma NobodyAccounted<C>()
    ensures Accounted<C>([], [], []) == multiset{}
  {
  }

  lemma AppendNothing<C>(first: seq<C>, failed: seq<Failure<C>>, skipped: seq<C>)
    ensures first + [] == first && failed + [] == failed && skipped + [] == skipped
  {
  }

  /** The three lists together are as long as what they account for. */
  lemma AccountedLength<C>(first: seq<C>, failed: seq<Failure<C>>, skipped: seq<C>)
    ensures |Accounted(first, failed, skipped)| == |first| + |failed| + |skipped|
  {
    CandidatesLength(failed);
  }

  lemma {:induction false} CandidatesLength<C>(failures: seq<Failure<C>>)
    ensures |Candidates(failures)| == |failures|
  {
    if failures != [] { CandidatesLength(failures[..|failures| - 1]); }
  }

  /** Admitted are those loaded that nothing speaks against. */
  lemma {:induction false} AdmittedAreScreened<C>(candidates: seq<C>, facts: C -> Facts, c: C)
    ensures c in AdmittedOf(candidates, facts) <==>
              && c in candidates && !facts(c).homeKind && !facts(c).dismissed && facts(c).filterFailure.None?
              && (facts(c).followed ==> !facts(c).realCollaboration)
  {
    if candidates != [] {
      AdmittedAreScreened(candidates[..|candidates| - 1], facts, c);
      assert candidates == candidates[..|candidates| - 1] + [candidates[|candidates| - 1]];
    }
  }

  /** Skipped are those that only an existing collaboration speaks against. */
  lemma {:induction false} DuplicatesAreFollowed<C>(candidates: seq<C>, facts: C -> Facts, c: C)
    ensures c in DuplicatesOf(candidates, facts) <==>
              && c in candidates && !facts(c).homeKind && !facts(c).dismissed && facts(c).filterFailure.None?
              && facts(c).followed && facts(c).realCollaboration
  {
    if candidates != [] {
      DuplicatesAreFollowed(candidates[..|candidates| - 1], facts, c);
      assert candidates == candidates[..|candidates| - 1] + [candidates[|candidates| - 1]];
    }
  }

  /** Each failure has the code of the first objection: the kind of discovery, then the dismissal, then the filter. */
  lemma {:induction false} FailuresHaveTheFirstObjection<C>(candidates: seq<C>, facts: C -> Facts, c: C, code: string)
    ensures Failure(c, code) in FailuresOf(candidates, facts) <==>
              && c in candidates
              && if facts(c).homeKind then code == "home_discovery_follow_forbidden"
                 else if facts(c).dismissed then code == "candidate_dismissed"
                 else facts(c).filterFailure == Some(code)
  {
    if candidates != [] {
      FailuresHaveTheFirstObjection(candidates[..|candidates| - 1], facts, c, code);
      assert candidates == candidates[..|candidates| - 1] + [candidates[|candidates| - 1]];
    }
  }

  /** Each list keeps the candidates' order: what comes of more candidates is behind what came of the first ones. */
  lemma {:induction false} ScreeningKeepsOrder<C>(a: seq<C>, b: seq<C>, facts: C -> Facts)
    ensures AdmittedOf(a + b, facts) == AdmittedOf(a, facts) + AdmittedOf(b, facts)
    ensures DuplicatesOf(a + b, facts) == DuplicatesOf(a, facts) + DuplicatesOf(b, facts)
    ensures FailuresOf(a + b, facts) == FailuresOf(a, facts) + FailuresOf(b, facts)
  {
    hide Screen;
    if b == [] {
      assert a + b == a;
    } else {
      assert (a + b)[..|a + b| - 1] == a + b[..|b| - 1];
      ScreeningKeepsOrder(a, b[..|b| - 1], facts);
    }
  }

  method ScreenAll<C>(candidates: seq<C>, facts: C -> Facts)
    returns (preview: seq<C>, failed: seq<Failure<C>>, skipped: seq<C>)
    ensures preview == AdmittedOf(candidates, facts)
    ensures failed == FailuresOf(candidates, facts)
    ensures skipped == DuplicatesOf(candidates, facts)
  {
    preview, failed, skipped := [], [], [];
    for i := 0 to |candidates|
      invariant preview == AdmittedOf(candidates[..i], facts)
      invariant failed == FailuresOf(candidates[..i], facts)
      invariant skipped == DuplicatesOf(candidates[..i], facts)
    {
      var c := candidates[i];
      assert candidates[..i + 1][..i] == candidates[..i];
      match Screen(facts(c)) {
        case Failing(code) => failed := failed + [Failure(c, code)];
        case Duplicate => skipped := skipped + [c];
        case Admitted => preview := preview + [c];
      }
    }
    assert candidates[..|candidates|] == candidates;
  }

  // ---------- distributing the endings ----------

  ghost function FollowedOf<C>(preview: seq<C>, outcomes: seq<Ending>): seq<C>
    requires |preview| == |outcomes|
  {
    if preview == [] then []
    else
      var n := |preview| - 1;
      FollowedOf(preview[..n], outcomes[..n]) + if outcomes[n] == Followed then [preview[n]] else []
  }

  ghost function SkippedOf<C>(preview: seq<C>, outcomes: seq<Ending>): seq<C>
    requires |preview| == |outcomes|
  {
    if preview == [] then []
    else
      var n := |preview| - 1;
      SkippedOf(preview[..n], outcomes[..n]) + if outcomes[n] == SkippedDuplicate then [preview[n]] else []
  }

  ghost function FailedOf<C>(preview: seq<C>, outcomes: seq<Ending>): seq<Failure<C>>
    requires |preview| == |outcomes|
  {
    if preview == [] then []
    else
      var n := |preview| - 1;
      FailedOf(preview[..n], outcomes[..n])
      + match outcomes[n] { case FailedWith(code) => [Failure(preview[n], code)] case _ => [] }
  }

  /** The endings put each admitted candidate in exactly one list. */
  lemma {:induction false} EndingsAccount<C>(preview: seq<C>, outcomes: seq<Ending>)
    requires |preview| == |outcomes|
    ensures Accounted(FollowedOf(preview, outcomes), FailedOf(preview, outcomes), SkippedOf(preview, outcomes)) == multiset(preview)
  {
    hide Accounted;
    if preview != [] {
      var n := |preview| - 1;
      EndingsAccount(preview[..n], outcomes[..n]);
      assert preview == preview[..n] + [preview[n]];
      var a, f, d := FollowedOf(preview[..n], outcomes[..n]), FailedOf(preview[..n], outcomes[..n]), SkippedOf(preview[..n], outcomes[..n]);
      AppendNothing(a, f, d);
      match outcomes[n] {
        case FailedWith(code) => OneMore(a, f, d, preview[n], code);
        case SkippedDuplicate => OneMore(a, f, d, preview[n], "");
        case Followed => OneMore(a, f, d, preview[n], "");
      }
    } else {
      NobodyAccounted<C>();
    }
  }

  /** Each admitted candidate is in the list that its own ending names. */
  lemma {:induction false} EachInItsOwnList<C>(preview: seq<C>, outcomes: seq<Ending>, c: C, code: string)
    requires |preview| == |outcomes|
    ensures c in FollowedOf(preview, outcomes) <==> exists i :: 0 <= i < |preview| && preview[i] == c && outcomes[i] == Followed
    ensures c in SkippedOf(preview, outcomes) <==> exists i :: 0 <= i < |preview| && preview[i] == c && outcomes[i] == SkippedDuplicate
    ensures Failure(c, code) in FailedOf(preview, outcomes) <==>
              exists i :: 0 <= i < |preview| && preview[i] == c && outcomes[i] == FailedWith(code)
  {
    if preview != [] {
      var n := |preview| - 1;
      EachInItsOwnList(preview[..n], outcomes[..n], c, code);
      forall i | 0 <= i < n ensures preview[..n][i] == preview[i] && outcomes[..n][i] == outcomes[i] {}
      SplitLast(preview, outcomes, c, Followed);
      SplitLast(preview, outcomes, c, SkippedDuplicate);
      SplitLast(preview, outcomes, c, FailedWith(code));
    }
  }

  lemma SplitLast<C>(preview: seq<C>, outcomes: seq<Ending>, c: C, ending: Ending)
    requires 0 < |preview| == |outcomes|
    ensures var n := |preview| - 1;
      (exists i :: 0 <= i < |preview| && preview[i] == c && outcomes[i] == ending) <==>
      ((exists i :: 0 <= i < n && preview[..n][i] == c && outcomes[..n][i] == ending) || (preview[n] == c && outcomes[n] == ending))
  {
    var n := |preview| - 1;
    forall i | 0 <= i < n ensures preview[..n][i] == preview[i] && outcomes[..n][i] == outcomes[i] {}
  }

  /** And each keeps the order of the admitted. */
  lemma {:induction false} EndingsKeepOrder<C>(a: seq<C>, b: seq<C>, x: seq<Ending>, y: seq<Ending>)
    requires |a| == |x| && |b| == |y|
    ensures FollowedOf(a + b, x + y) == FollowedOf(a, x) + FollowedOf(b, y)
    ensures SkippedOf(a + b, x + y) == SkippedOf(a, x) + SkippedOf(b, y)
    ensures FailedOf(a + b, x + y) == FailedOf(a, x) + FailedOf(b, y)
  {
    hide FollowedOf, SkippedOf, FailedOf;
    if b == [] {
      assert a + b == a && x + y == x;
      NoEndings<C>();
      AppendNothing(FollowedOf(a, x), FailedOf(a, x), SkippedOf(a, x));
    } else {
      var n := |b| - 1;
      var front, back := b[..n], y[..n];
      EndingsKeepOrder(a, front, x, back);
      Regroup(a, b, n);
      Regroup(x, y, n);
      LastEnding(front, back, b[n], y[n]);
      LastEnding(a + front, x + back, b[n], y[n]);
      Associates(FollowedOf(a, x), FollowedOf(front, back), if y[n].Followed? then [b[n]] else []);
      Associates(SkippedOf(a, x), SkippedOf(front, back), if y[n].SkippedDuplicate? then [b[n]] else []);
      Associates(FailedOf(a, x), FailedOf(front, back), if y[n].FailedWith? then [Failure(b[n], y[n].code)] else []);
    }
  }

  lemma NoEndings<C>()
    ensures FollowedOf<C>([], []) == [] && SkippedOf<C>([], []) == [] && FailedOf<C>([], []) == []
  {
  }

  lemma Regroup<T>(a: seq<T>, b: seq<T>, n: nat)
    requires |b| == n + 1
    ensures b == b[..n] + [b[n]] && a + b == a + b[..n] + [b[n]]
  {
  }

  lemma Associates<T>(a: seq<T>, b: seq<T>, c: seq<T>)
    ensures a + b + c == a + (b + c)
  {
  }

  lemma LastEnding<C>(preview: seq<C>, outcomes: seq<Ending>, c: C, ending: Ending)
    requires |preview| == |outcomes|
    ensures FollowedOf(preview + [c], outcomes + [ending]) == FollowedOf(preview, outcomes) + if ending.Followed? then [c] else []
    ensures SkippedOf(preview + [c], outcomes + [ending]) == SkippedOf(preview, outcomes) + if ending.SkippedDuplicate? then [c] else []
    ensures FailedOf(preview + [c], outcomes + [ending])
         == FailedOf(preview, outcomes) + if ending.FailedWith? then [Failure(c, ending.code)] else []
  {
    assert (preview + [c])[..|preview|] == preview && (outcomes + [ending])[..|outcomes|] == outcomes;
  }

  method Distribute<C>(preview: seq<C>, outcomes: seq<Ending>, failed0: seq<Failure<C>>, skipped0: seq<C>)
    returns (followed: seq<C>, failed: seq<Failure<C>>, skipped: seq<C>)
    requires |outcomes| == |preview|
    ensures followed == FollowedOf(preview, outcomes)
    ensures failed == failed0 + FailedOf(preview, outcomes)
    ensures skipped == skipped0 + SkippedOf(preview, outcomes)
  {
    followed, failed, skipped := [], failed0, skipped0;
    for i := 0 to |preview|
      invariant followed == FollowedOf(preview[..i], outcomes[..i])
      invariant failed == failed0 + FailedOf(preview[..i], outcomes[..i])
      invariant skipped == skipped0 + SkippedOf(preview[..i], outcomes[..i])
    {
      assert preview[..i + 1][..i] == preview[..i] && outcomes[..i + 1][..i] == outcomes[..i];
      match outcomes[i] {
        case Followed => followed := followed + [preview[i]];
        case SkippedDuplicate => skipped := skipped + [preview[i]];
        case FailedWith(code) => failed := failed + [Failure(preview[i], code)];
      }
    }
    assert preview[..|preview|] == preview && outcomes[..|outcomes|] == outcomes;
  }

  // ---------- the batch ----------

  /** The endings of the admitted candidates, by position. */
  ghost function Endings<C>(preview: seq<C>, ending: (C, nat) -> Ending): seq<Ending>
  {
    seq(|preview|, i requires 0 <= i < |preview| => ending(preview[i], i))
  }

  /** Following one candidate as the pool runs it: its errors are caught, so it always resolves. */
  function Settling<C>(ending: (C, nat) -> Ending): (C, nat) -> Answer<Ending>
  {
    (c: C, i: nat) => Resolved(ending(c, i))
  }

  /** Both stages together lose and repeat no one. */
  lemma BatchAccounts<C>(candidates: seq<C>, facts: C -> Facts, outcomes: seq<Ending>)
    requires |outcomes| == |AdmittedOf(candidates, facts)|
    ensures
      var preview := AdmittedOf(candidates, facts);
      var failed := FailuresOf(candidates, facts) + FailedOf(preview, outcomes);
      var skipped := DuplicatesOf(candidates, facts) + SkippedOf(preview, outcomes);
      && Accounted(FollowedOf(preview, outcomes), failed, skipped) == multiset(candidates)
      && |FollowedOf(preview, outcomes)| + |failed| + |skipped| == |candidates|
  {
    var preview := AdmittedOf(candidates, facts);
    ScreeningAccounts(candidates, facts);
    EndingsAccount(preview, outcomes);
    CandidatesAppend(FailuresOf(candidates, facts), FailedOf(preview, outcomes));
    AccountedLength(FollowedOf(preview, outcomes), FailuresOf(candidates, facts) + FailedOf(preview, outcomes),
                    DuplicatesOf(candidates, facts) + SkippedOf(preview, outcomes));
  }

  /**
   * The whole batch. `ending` is what following a candidate comes to, errors included, so it always resolves.
   * Without confirmation nothing is followed; with it, every loaded candidate is in exactly one of the lists,
   * and those followed are the admitted ones whose own follow succeeded, whatever the interleaving.
   */
  method FollowCandidatesBatch<C(==)>(candidates: seq<C>, facts: C -> Facts, consent: Consent, ending: (C, nat) -> Ending)
    returns (r: Option<Result<C>>, ghost run: seq<Move>)
    ensures r.None? <==> consent == Unconfirmed
    ensures r.Some? && consent == Confirmed ==> NeverMore(Answers(r.value.preview, Settling(ending)), 3, run, 3)
    ensures r.Some? ==> r.value.preview == AdmittedOf(candidates, facts)
    ensures consent == PreviewOnly ==>
              && r.value.followed == [] && r.value.failed == FailuresOf(candidates, facts) && r.value.skipped == DuplicatesOf(candidates, facts)
              && Accounted(r.value.preview, r.value.failed, r.value.skipped) == multiset(candidates)
    ensures consent == Confirmed ==>
              && |r.value.followed| + |r.value.failed| + |r.value.skipped| == |candidates|
              && Accounted(r.value.followed, r.value.failed, r.value.skipped) == multiset(candidates)
              && r.value.followed == FollowedOf(r.value.preview, Endings(r.value.preview, ending))
              && r.value.failed == FailuresOf(candidates, facts) + FailedOf(r.value.preview, Endings(r.value.preview, ending))
              && r.value.skipped == DuplicatesOf(candidates, facts) + SkippedOf(r.value.preview, Endings(r.value.preview, ending))
  {
    run := [];
    var preview, failed, skipped := ScreenAll(candidates, facts);
    ScreeningAccounts(candidates, facts);
    if consent == PreviewOnly { return Some(Result(preview, [], failed, skipped)), run; }
    if consent == Unconfirmed { return None, run; }
    if preview == [] {
      BatchAccounts(candidates, facts, []);
      AppendNothing(preview, failed, skipped);
      assert Endings(preview, ending) == [];
      NeverMoreThanTheLimit(Answers(preview, Settling(ending)), 3, []);
      return Some(Result([], [], failed, skipped)), run;
    }
    var outcomes;
    outcomes, run := RunLimited(preview, FOLLOW_BATCH_CONCURRENCY, Settling(ending));
    assert outcomes.value == Endings(preview, ending);
    BatchAccounts(candidates, facts, outcomes.value);
    var followed;
    followed, failed, skipped := Distribute(preview, outcomes.value, failed, skipped);
    r := Some(Result(preview, followed, failed, skipped));
  }
}
