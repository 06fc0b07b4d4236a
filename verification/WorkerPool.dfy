/** A fixed number of workers that take items from a shared cursor, interleaved in every possible way. */
module WorkerPool {
  import opened Prelude

  /** What a worker's promise settles to. */
  datatype Answer<R> = Resolved(value: R) | Rejected

  datatype Worker = Ready | Busy(index: nat) | Broken(index: nat) | Finished

  datatype Pool<R> = Pool(next: nat, results: seq<Option<R>>, workers: seq<Worker>)

  /** `Resume(w)`: worker w runs from one await to the next. */
  datatype Move = Claim(worker: nat) | Resume(worker: nat)

  function Width(limit: int, n: nat): nat
  {
    var wanted := if limit < 1 then 1 else limit;
    if wanted < n then wanted else n
  }

  function Opened<R>(n: nat, limit: int): Pool<R>
  {
    Pool(0, seq(n, _ => None), seq(Width(limit, n), _ => Ready))
  }

  predicate Enabled<R>(pool: Pool<R>, move: Move)
  {
    match move
    case Claim(w) => w < |pool.workers| && pool.workers[w] == Ready
    case Resume(w) => w < |pool.workers| && pool.workers[w].Busy?
  }

  /** `answers[i]` is what the worker function gives for item i. */
  function Take<R>(answers: seq<Answer<R>>, pool: Pool<R>, move: Move): Pool<R>
    requires Enabled(pool, move) && |pool.results| == |answers|
  {
    match move
    case Claim(w) =>
      if pool.next < |answers|
      then pool.(next := pool.next + 1, workers := pool.workers[w := Busy(pool.next)])
      else pool.(workers := pool.workers[w := Finished])
    case Resume(w) =>
      var i := pool.workers[w].index;
      if i >= |answers| then pool
      else match answers[i] {
        case Resolved(r) => pool.(results := pool.results[i := Some(r)], workers := pool.workers[w := Ready])
        case Rejected => pool.(workers := pool.workers[w := Broken(i)])
      }
  }

  /** A worker that has claimed an item and not delivered its result. */
  predicate Holding(worker: Worker)
  {
    worker.Busy? || worker.Broken?
  }

  predicate Holds(worker: Worker, i: nat)
  {
    Holding(worker) && worker.index == i
  }

  ghost predicate Held<R>(pool: Pool<R>, i: nat)
  {
    exists w :: 0 <= w < |pool.workers| && Holds(pool.workers[w], i)
  }

  /** What every interleaving keeps. */
  ghost predicate PoolOk<R>(answers: seq<Answer<R>>, width: nat, pool: Pool<R>)
  {
    && |pool.workers| == width && |pool.results| == |answers| && pool.next <= |answers|
    && (forall w :: 0 <= w < width && Holding(pool.workers[w]) ==>
          pool.workers[w].index < pool.next && pool.results[pool.workers[w].index] == None)
    && (forall v, w :: 0 <= v < w < width && Holding(pool.workers[v]) && Holding(pool.workers[w]) ==>
          pool.workers[v].index != pool.workers[w].index)
    && (forall w :: 0 <= w < width && pool.workers[w].Broken? ==> answers[pool.workers[w].index] == Rejected)
    && (forall w :: 0 <= w < width && pool.workers[w] == Finished ==> pool.next == |answers|)
    && (forall i :: 0 <= i < |answers| && pool.results[i].Some? ==> i < pool.next && answers[i] == Resolved(pool.results[i].value))
    && (forall i :: 0 <= i < pool.next && pool.results[i].None? ==> Held(pool, i))
  }

  lemma TakeKeepsPool<R>(answers: seq<Answer<R>>, width: nat, pool: Pool<R>, move: Move)
    requires PoolOk(answers, width, pool) && Enabled(pool, move)
    ensures PoolOk(answers, width, Take(answers, pool, move))
  {
    TakeKeepsHeld(answers, width, pool, move);
    hide Held;
  }

  lemma TakeKeepsHeld<R>(answers: seq<Answer<R>>, width: nat, pool: Pool<R>, move: Move)
    requires PoolOk(answers, width, pool) && Enabled(pool, move)
    ensures var after := Take(answers, pool, move);
      forall i :: 0 <= i < after.next && i < |after.results| && after.results[i].None? ==> Held(after, i)
  {
    var after := Take(answers, pool, move);
    forall i | 0 <= i < after.next && i < |after.results| && after.results[i].None? ensures Held(after, i) {
      if i == pool.next {
        assert Holds(after.workers[move.worker], i);
      } else {
        var w :| 0 <= w < width && Holds(pool.workers[w], i);
        assert Holds(after.workers[w], i);
      }
    }
  }

  /** Turns that are still to come: two per unclaimed item, two for a busy worker, one for a ready one. */
  ghost function Remaining<R>(n: nat, pool: Pool<R>): nat
  {
    (if pool.next < n then 2 * (n - pool.next) else 0) + Load(pool.workers)
  }

  ghost function Weight(worker: Worker): nat
  {
    match worker case Ready => 1 case Busy(_) => 2 case _ => 0
  }

  ghost function Load(workers: seq<Worker>): nat
  {
    if workers == [] then 0 else Load(workers[..|workers| - 1]) + Weight(workers[|workers| - 1])
  }

  lemma {:induction false} LoadUpdated(workers: seq<Worker>, w: nat, worker: Worker)
    requires w < |workers|
    ensures Load(workers[w := worker]) == Load(workers) - Weight(workers[w]) + Weight(worker)
  {
    var n := |workers| - 1;
    if w == n {
      assert workers[w := worker][..n] == workers[..n];
    } else {
      assert workers[w := worker][..n] == workers[..n][w := worker];
      LoadUpdated(workers[..n], w, worker);
    }
  }

  lemma TakeAdvances<R>(answers: seq<Answer<R>>, width: nat, pool: Pool<R>, move: Move)
    requires PoolOk(answers, width, pool) && Enabled(pool, move)
    ensures Remaining(|answers|, Take(answers, pool, move)) < Remaining(|answers|, pool)
  {
    LoadUpdated(pool.workers, move.worker, Take(answers, pool, move).workers[move.worker]);
    var after := Take(answers, pool, move);
    assert after.workers == pool.workers[move.worker := after.workers[move.worker]];
  }

  // ---------- runs ----------

  function RunOf<R>(answers: seq<Answer<R>>, limit: int, moves: seq<Move>): (pool: Option<Pool<R>>)
    ensures pool.Some? ==> |pool.value.results| == |answers|
  {
    if moves == [] then Some(Opened(|answers|, limit))
    else
      var before := RunOf(answers, limit, moves[..|moves| - 1]);
      var move := moves[|moves| - 1];
      if before.None? || !Enabled(before.value, move) then None else Some(Take(answers, before.value, move))
  }

  /** The items claimed by a run, in order. */
  ghost function Claimed<R>(answers: seq<Answer<R>>, limit: int, moves: seq<Move>): seq<nat>
  {
    if moves == [] then []
    else
      var before := RunOf(answers, limit, moves[..|moves| - 1]);
      Claimed(answers, limit, moves[..|moves| - 1])
      + if before.Some? && moves[|moves| - 1].Claim? && before.value.next < |answers| then [before.value.next] else []
  }

  lemma {:induction false} RunKeepsPool<R>(answers: seq<Answer<R>>, limit: int, moves: seq<Move>)
    requires RunOf(answers, limit, moves).Some?
    ensures PoolOk(answers, Width(limit, |answers|), RunOf(answers, limit, moves).value)
    ensures Remaining(|answers|, RunOf(answers, limit, moves).value) + |moves| <= 2 * |answers| + Width(limit, |answers|)
  {
    if moves == [] {
      OpenedLoad(Width(limit, |answers|));
    } else {
      RunKeepsPool(answers, limit, moves[..|moves| - 1]);
      var before := RunOf(answers, limit, moves[..|moves| - 1]).value;
      TakeKeepsPool(answers, Width(limit, |answers|), before, moves[|moves| - 1]);
      TakeAdvances(answers, Width(limit, |answers|), before, moves[|moves| - 1]);
    }
  }

  lemma {:induction false} OpenedLoad(width: nat)
    ensures Load(seq(width, _ => Ready)) == width
  {
    if width > 0 {
      assert seq(width, _ => Ready)[..width - 1] == seq(width - 1, _ => Ready);
      OpenedLoad(width - 1);
    }
  }

  /** Every run claims 0, 1, 2, ... in order: each item at most once, and none out of turn. */
  lemma {:induction false} ClaimsInOrder<R>(answers: seq<Answer<R>>, limit: int, moves: seq<Move>)
    requires RunOf(answers, limit, moves).Some?
    ensures |Claimed(answers, limit, moves)| == RunOf(answers, limit, moves).value.next
    ensures forall k :: 0 <= k < |Claimed(answers, limit, moves)| ==> Claimed(answers, limit, moves)[k] == k
  {
    if moves != [] {
      ClaimsInOrder(answers, limit, moves[..|moves| - 1]);
      RunKeepsPool(answers, limit, moves[..|moves| - 1]);
    }
  }

  ghost function InFlight(workers: seq<Worker>): set<nat>
  {
    set w | 0 <= w < |workers| && workers[w].Busy? :: workers[w].index
  }

  /** Never more items are in flight than there are items, nor than the limit; and turns are bounded. */
  lemma RunsAreBounded<R>(answers: seq<Answer<R>>, limit: int, moves: seq<Move>)
    requires RunOf(answers, limit, moves).Some?
    ensures |InFlight(RunOf(answers, limit, moves).value.workers)| <= |answers|
    ensures |InFlight(RunOf(answers, limit, moves).value.workers)| <= (if limit < 1 then 1 else limit)
    ensures |moves| <= 3 * |answers|
  {
    RunKeepsPool(answers, limit, moves);
    InFlightBound(RunOf(answers, limit, moves).value.workers);
  }

  ghost function Claims(k: nat): seq<Move>
  {
    seq(k, w requires 0 <= w < k => Claim(w))
  }

  lemma {:induction false} AfterClaims<R>(answers: seq<Answer<R>>, limit: int, k: nat)
    requires k <= Width(limit, |answers|)
    ensures
      var run := RunOf(answers, limit, Claims(k));
      && run.Some? && run.value.next == k && |run.value.workers| == Width(limit, |answers|)
      && forall w :: 0 <= w < |run.value.workers| ==> run.value.workers[w] == if w < k then Busy(w) else Ready
  {
    if k > 0 {
      AfterClaims(answers, limit, k - 1);
      assert Claims(k)[..k - 1] == Claims(k - 1);
    }
  }

  lemma FirstAreBusy(workers: seq<Worker>, k: nat)
    requires k <= |workers| && forall w :: 0 <= w < |workers| ==> workers[w] == if w < k then Busy(w) else Ready
    ensures |InFlight(workers)| == k
  {
    forall i | i in Below(k) ensures i in InFlight(workers) { assert workers[i] == Busy(i); }
    assert InFlight(workers) == Below(k);
  }

  /** And the bound is reached: up to it, every number of items is in flight at the end of some run. */
  lemma AnyNumberIsInFlight<R>(answers: seq<Answer<R>>, limit: int, k: nat)
    requires k <= |answers| && k <= (if limit < 1 then 1 else limit)
    ensures RunOf(answers, limit, Claims(k)).Some?
    ensures |InFlight(RunOf(answers, limit, Claims(k)).value.workers)| == k
    ensures |RunOf(answers, limit, Claims(k)).value.workers| == Least(if limit < 1 then 1 else limit, |answers|)
  {
    AfterClaims(answers, limit, k);
    FirstAreBusy(RunOf(answers, limit, Claims(k)).value.workers, k);
  }

  function Least(a: nat, b: nat): nat
  {
    if a < b then a else b
  }

  ghost function Below(k: nat): (s: set<nat>)
    ensures |s| == k && forall i :: i in s <==> 0 <= i < k
  {
    if k == 0 then {} else Below(k - 1) + {k - 1}
  }

  lemma {:induction false} InFlightBound(workers: seq<Worker>)
    ensures |InFlight(workers)| <= |workers|
  {
    if workers == [] {
      assert InFlight(workers) == {};
    } else {
      var n := |workers| - 1;
      InFlightBound(workers[..n]);
      var last := if workers[n].Busy? then {workers[n].index} else {};
      assert InFlight(workers) == InFlight(workers[..n]) + last by {
        forall i | i in InFlight(workers) ensures i in InFlight(workers[..n]) + last {
          var w :| 0 <= w < |workers| && workers[w].Busy? && workers[w].index == i;
          if w < n { assert workers[..n][w] == workers[w]; }
        }
      }
    }
  }

  predicate Quiet<R>(pool: Pool<R>)
  {
    forall w :: 0 <= w < |pool.workers| ==> pool.workers[w] == Finished || pool.workers[w].Broken?
  }

  /** While the pool is not quiet, some worker can move. */
  lemma SomeWorkerCanMove<R>(pool: Pool<R>)
    requires !Quiet(pool)
    ensures exists w: nat :: Enabled(pool, Claim(w)) || Enabled(pool, Resume(w))
  {
    var w: nat :| w < |pool.workers| && pool.workers[w] != Finished && !pool.workers[w].Broken?;
    assert Enabled(pool, Claim(w)) || Enabled(pool, Resume(w));
  }

  /** Every run that ends quiet with no broken worker has each item's answer in that item's place. */
  lemma QuietRunsAreComplete<R>(answers: seq<Answer<R>>, limit: int, moves: seq<Move>)
    requires RunOf(answers, limit, moves).Some? && Quiet(RunOf(answers, limit, moves).value)
    requires forall i :: 0 <= i < |answers| ==> answers[i].Resolved?
    ensures forall i :: 0 <= i < |answers| ==> RunOf(answers, limit, moves).value.results[i] == Some(answers[i].value)
  {
    RunKeepsPool(answers, limit, moves);
    QuietIsComplete(answers, Width(limit, |answers|), RunOf(answers, limit, moves).value);
  }

  lemma QuietIsComplete<R>(answers: seq<Answer<R>>, width: nat, pool: Pool<R>)
    requires PoolOk(answers, width, pool) && Quiet(pool) && (|answers| > 0 ==> width > 0)
    requires forall i :: 0 <= i < |answers| ==> answers[i].Resolved?
    ensures forall i :: 0 <= i < |answers| ==> pool.results[i] == Some(answers[i].value)
  {
    forall i | 0 <= i < |answers| ensures pool.results[i] == Some(answers[i].value) {
      assert pool.workers[0] == Finished by {
        assert !pool.workers[0].Broken?;
      }
      assert pool.next == |answers|;
      assert !Held(pool, i) by {
        assert forall w :: 0 <= w < width ==> pool.workers[w] == Finished || answers[pool.workers[w].index] == Rejected;
      }
    }
  }

  ghost function Answers<T, R>(items: seq<T>, worker: (T, nat) -> Answer<R>): seq<Answer<R>>
  {
    seq(|items|, i requires 0 <= i < |items| => worker(items[i], i))
  }

  /** One turn of worker w: claim the next item, or deliver the one it holds. */
  method Turn<T, R>(items: seq<T>, worker: (T, nat) -> Answer<R>, ghost width: nat, pool: Pool<R>, w: nat)
    returns (after: Pool<R>, ghost move: Move)
    requires PoolOk(Answers(items, worker), width, pool)
    requires w < |pool.workers| && pool.workers[w] != Finished && !pool.workers[w].Broken?
    ensures Enabled(pool, move) && after == Take(Answers(items, worker), pool, move)
    ensures Remaining(|items|, after) < Remaining(|items|, pool)
  {
    hide Held, Remaining;
    move := if pool.workers[w] == Ready then Claim(w) else Resume(w);
    TakeAdvances(Answers(items, worker), width, pool, move);
    match pool.workers[w] {
      case Ready =>
        after := if pool.next < |items|
          then pool.(next := pool.next + 1, workers := pool.workers[w := Busy(pool.next)])
          else pool.(workers := pool.workers[w := Finished]);
      case Busy(i) =>
        match worker(items[i], i) {
          case Resolved(r) => after := pool.(results := pool.results[i := Some(r)], workers := pool.workers[w := Ready]);
          case Rejected => after := pool.(workers := pool.workers[w := Broken(i)]);
        }
    }
  }

  /** At every point of the run, at most `bound` items are in flight. */
  ghost predicate NeverMore<R>(answers: seq<Answer<R>>, limit: int, moves: seq<Move>, bound: int)
  {
    && RunOf(answers, limit, moves).Some?
    && |InFlight(RunOf(answers, limit, moves).value.workers)| <= bound
    && (moves != [] ==> NeverMore(answers, limit, moves[..|moves| - 1], bound))
  }

  lemma {:induction false} NeverMoreThanTheLimit<R>(answers: seq<Answer<R>>, limit: int, moves: seq<Move>)
    requires RunOf(answers, limit, moves).Some?
    ensures NeverMore(answers, limit, moves, if limit < 1 then 1 else limit)
    ensures NeverMore(answers, limit, moves, |answers|)
  {
    hide InFlight;
    RunsAreBounded(answers, limit, moves);
    if moves != [] { NeverMoreThanTheLimit(answers, limit, moves[..|moves| - 1]); }
  }

  /** The pool run under an arbitrary scheduler: the loop picks any worker that can move, and `run` is what it did. */
  method RunLimited<T, R>(items: seq<T>, limit: int, worker: (T, nat) -> Answer<R>)
    returns (results: Option<seq<R>>, ghost run: seq<Move>)
    ensures NeverMore(Answers(items, worker), limit, run, if limit < 1 then 1 else limit)
    ensures NeverMore(Answers(items, worker), limit, run, |items|)
    ensures (forall i :: 0 <= i < |items| ==> worker(items[i], i).Resolved?) ==>
              results.Some? && |results.value| == |items|
              && forall i :: 0 <= i < |items| ==> Resolved(results.value[i]) == worker(items[i], i)
    ensures results.None? <==> exists i :: 0 <= i < |items| && worker(items[i], i).Rejected?
  {
    run := [];
    if items == [] { NeverMoreThanTheLimit(Answers(items, worker), limit, run); return Some([]), run; }
    ghost var width := Width(limit, |items|);
    var pool := Opened<R>(|items|, limit);
    while !Quiet(pool)
      invariant RunOf(Answers(items, worker), limit, run) == Some(pool)
      decreases Remaining(|items|, pool)
    {
      hide PoolOk, Remaining, Take, Enabled;
      RunKeepsPool(Answers(items, worker), limit, run);
      var w :| 0 <= w < |pool.workers| && pool.workers[w] != Finished && !pool.workers[w].Broken?;
      ghost var move;
      pool, move := Turn(items, worker, width, pool, w);
      assert (run + [move])[..|run + [move]| - 1] == run;
      run := run + [move];
    }
    hide PoolOk, NeverMore;
    NeverMoreThanTheLimit(Answers(items, worker), limit, run);
    RunKeepsPool(Answers(items, worker), limit, run);
    PoolShape(Answers(items, worker), width, pool);
    if w :| 0 <= w < |pool.workers| && pool.workers[w].Broken? {
      // Promise.all rejects
      BrokenIsRejected(Answers(items, worker), width, pool, w);
      assert worker(items[pool.workers[w].index], pool.workers[w].index).Rejected?;
      return None, run;
    }
    EveryItemDone(Answers(items, worker), width, pool);
    assert forall i :: 0 <= i < |items| ==> worker(items[i], i) == Answers(items, worker)[i];
    results := Some(seq(|items|, i requires 0 <= i < |items| => pool.results[i].value));
  }

  lemma PoolShape<R>(answers: seq<Answer<R>>, width: nat, pool: Pool<R>)
    requires PoolOk(answers, width, pool)
    ensures |pool.workers| == width && |pool.results| == |answers|
  {
  }

  lemma BrokenIsRejected<R>(answers: seq<Answer<R>>, width: nat, pool: Pool<R>, w: nat)
    requires PoolOk(answers, width, pool) && w < width && pool.workers[w].Broken?
    ensures pool.workers[w].index < |answers| && answers[pool.workers[w].index] == Rejected
  {
  }

  lemma EveryItemDone<R>(answers: seq<Answer<R>>, width: nat, pool: Pool<R>)
    requires PoolOk(answers, width, pool) && width > 0
    requires forall w :: 0 <= w < width ==> pool.workers[w] == Finished
    ensures forall i :: 0 <= i < |answers| ==> pool.results[i].Some? && answers[i] == Resolved(pool.results[i].value)
  {
    assert pool.workers[0] == Finished;
    forall i | 0 <= i < |answers| ensures pool.results[i].Some? {
      assert !Held(pool, i);
    }
  }
}
