/** Token usage per month, budgets, and the gate that stops runs once a budget is used up. */
module Costs {
  import opened Prelude
  import opened Calendar

  const MAX_SAFE_INTEGER := 9_007_199_254_740_991

  datatype Scope = Company | Agent | User

  datatype CostEvent = CostEvent(occurredAt: int, agentId: Option<string>, userId: Option<string>,
                                 inputTokens: Option<nat>, outputTokens: Option<nat>, totalTokens: nat)

  datatype Budget = Budget(limitTokens: Option<int>, warnPercent: int, hardStopPercent: int, enabled: bool, version: nat)

  datatype Key = Key(scope: Scope, ref: string)

  type BudgetTable = map<Key, Budget>

  datatype State = Unconfigured | Disabled | Fine | Warn | Stopped

  function BudgetStateFor(row: Option<Budget>, used: nat): State
  {
    if row.None? || row.value.limitTokens.None? || row.value.limitTokens.value <= 0 then Unconfigured
    else if !row.value.enabled then Disabled
    else if used * 100 >= row.value.limitTokens.value * row.value.hardStopPercent then Stopped
    else if used * 100 >= row.value.limitTokens.value * row.value.warnPercent then Warn
    else Fine
  }

  // ---------- usage ----------

  /** A scope's events, whatever their time. */
  predicate InScope(event: CostEvent, key: Key)
  {
    match key.scope
    case Company => true
    case Agent => event.agentId == Some(key.ref)
    case User => event.userId == Some(key.ref)
  }

  predicate Counts(event: CostEvent, key: Key, window: Window)
  {
    Within(window, event.occurredAt) && InScope(event, key)
  }

  datatype Totals = Totals(input: nat, output: nat, total: nat, events: nat)

  function OrZero(n: Option<nat>): nat
  {
    if n.Some? then n.value else 0
  }

  /** The sums the database computes over the counted rows. */
  function UsageSums(events: seq<CostEvent>, key: Key, window: Window): Totals
  {
    if events == [] then Totals(0, 0, 0, 0)
    else
      var sums := UsageSums(events[..|events| - 1], key, window);
      var last := events[|events| - 1];
      if Counts(last, key, window)
      then Totals(sums.input + OrZero(last.inputTokens), sums.output + OrZero(last.outputTokens), sums.total + last.totalTokens, sums.events + 1)
      else sums
  }

  predicate Safe(sums: Totals)
  {
    sums.input <= MAX_SAFE_INTEGER && sums.output <= MAX_SAFE_INTEGER && sums.total <= MAX_SAFE_INTEGER && sums.events <= MAX_SAFE_INTEGER
  }

  /** The tokens used in a scope; none where a counter is out of the safe range and the read fails. */
  function ScopeUsage(events: seq<CostEvent>, key: Key, window: Window): Option<nat>
  {
    var sums := UsageSums(events, key, window);
    if Safe(sums) then Some(sums.total) else None
  }

  predicate AtMost(a: Totals, b: Totals)
  {
    a.input <= b.input && a.output <= b.output && a.total <= b.total && a.events <= b.events
  }

  /** Later events only ever add to the sums. */
  lemma {:induction false} UsageGrows(events: seq<CostEvent>, more: seq<CostEvent>, key: Key, window: Window)
    ensures AtMost(UsageSums(events, key, window), UsageSums(events + more, key, window))
  {
    if more == [] {
      assert events + more == events;
    } else {
      UsageGrows(events, more[..|more| - 1], key, window);
      assert (events + more)[..|events + more| - 1] == events + more[..|more| - 1];
    }
  }

  /** An event outside the window leaves the sums alone. */
  lemma {:induction false} UsageOutside(events: seq<CostEvent>, key: Key, window: Window)
    requires forall i :: 0 <= i < |events| ==> !Within(window, events[i].occurredAt)
    ensures UsageSums(events, key, window) == Totals(0, 0, 0, 0)
  {
    if events != [] { UsageOutside(events[..|events| - 1], key, window); }
  }

  /** Counted in the company, for its own agent and for its own employee. */
  ghost predicate Concerns(event: CostEvent, key: Key)
  {
    || key.scope == Company
    || (key.scope == Agent && event.agentId.Some? && event.agentId.value == key.ref)
    || (key.scope == User && event.userId.Some? && event.userId.value == key.ref)
  }

  /** A new event adds its tokens in the month on the wall at its time, for its own scopes, and nowhere else. */
  lemma EventCountsInItsMonthOnly(events: seq<CostEvent>, event: CostEvent, key: Key, month: Month)
    requires Written(month) && Dated(event.occurredAt)
    ensures
      var before, after := UsageSums(events, key, MonthWindow(month)), UsageSums(events + [event], key, MonthWindow(month));
      if CurrentCostMonth(event.occurredAt) == month && Concerns(event, key)
      then
        && after.input == before.input + (if event.inputTokens.Some? then event.inputTokens.value else 0)
        && after.output == before.output + (if event.outputTokens.Some? then event.outputTokens.value else 0)
        && after.total == before.total + event.totalTokens && after.events == before.events + 1
      else after == before
    ensures UsageSums([], key, MonthWindow(month)) == Totals(0, 0, 0, 0)
  {
    hide MonthWindow, CurrentCostMonth, Within;
    InstantIsInItsWindow(event.occurredAt, month);
    assert (events + [event])[..|events + [event]| - 1] == events;
  }

  // ---------- the gate ----------

  datatype Gate = Open | Blocked(key: Key, used: nat, limit: int) | Failed

  /** The scopes looked at, in order: the company, the agent, and the employee where one is named. */
  function Candidates(company: string, agentId: string, userId: Option<string>): seq<Key>
  {
    [Key(Company, company), Key(Agent, agentId)]
    + if userId.Some? && Trim(userId.value) != "" then [Key(User, Trim(userId.value))] else []
  }

  function Row(budgets: BudgetTable, key: Key): Option<Budget>
  {
    if key in budgets then Some(budgets[key]) else None
  }

  predicate Active(row: Option<Budget>)
  {
    row.Some? && row.value.enabled && row.value.limitTokens.Some? && row.value.limitTokens.value > 0
  }

  /** What one scope says. */
  function ScopeGate(events: seq<CostEvent>, budgets: BudgetTable, key: Key, window: Window): Gate
  {
    var row := Row(budgets, key);
    if !Active(row) then Open
    else
      var used := ScopeUsage(events, key, window);
      if used.None? then Failed
      else if BudgetStateFor(row, used.value) == Stopped then Blocked(key, used.value, row.value.limitTokens.value)
      else Open
  }

  /** The first scope that is not open decides. */
  function GateOf(events: seq<CostEvent>, budgets: BudgetTable, keys: seq<Key>, window: Window): Gate
  {
    if keys == [] then Open
    else
      var first := ScopeGate(events, budgets, keys[0], window);
      if first == Open then GateOf(events, budgets, keys[1..], window) else first
  }

  /** The month's window at an instant, in the months whose text has four digits. */
  predicate Readable(now: int)
  {
    Dated(now) && Written(CurrentCostMonth(now))
  }

  function BudgetGate(events: seq<CostEvent>, budgets: BudgetTable, company: string, agentId: string, userId: Option<string>, now: int): Gate
    requires Readable(now)
  {
    GateOf(events, budgets, Candidates(company, agentId, userId), MonthWindow(CurrentCostMonth(now)))
  }

  /** The state shown for a budget, by its limit, its two percentages and the usage. */
  lemma StateMeans(row: Option<Budget>, used: nat)
    ensures BudgetStateFor(row, used) == Unconfigured <==> (row.Some? && row.value.limitTokens.Some? ==> row.value.limitTokens.value <= 0)
    ensures row.Some? && row.value.limitTokens.Some? && row.value.limitTokens.value > 0 ==>
      var limit, state := row.value.limitTokens.value, BudgetStateFor(row, used);
      && (state == Disabled <==> !row.value.enabled)
      && (state == Stopped <==> row.value.enabled && used * 100 >= limit * row.value.hardStopPercent)
      && (state == Warn <==> row.value.enabled && limit * row.value.warnPercent <= used * 100 < limit * row.value.hardStopPercent)
      && (state == Fine <==> row.value.enabled && used * 100 < limit * row.value.warnPercent && used * 100 < limit * row.value.hardStopPercent)
  {
  }

  /** A budget that is in force. */
  ghost predicate InForce(budgets: BudgetTable, key: Key)
  {
    key in budgets && budgets[key].enabled && budgets[key].limitTokens.Some? && budgets[key].limitTokens.value > 0
  }

  /** Sums that the service can read: none beyond the safe integers. */
  ghost predicate Countable(sums: Totals)
  {
    && sums.input <= 9_007_199_254_740_991 && sums.output <= 9_007_199_254_740_991
    && sums.total <= 9_007_199_254_740_991 && sums.events <= 9_007_199_254_740_991
  }

  /** A scope closes the gate when its budget is in force and is used up to its stop, or cannot be read. */
  ghost predicate Closes(budgets: BudgetTable, key: Key, sums: Totals)
  {
    InForce(budgets, key)
    && (!Countable(sums) || sums.total * 100 >= budgets[key].limitTokens.value * budgets[key].hardStopPercent)
  }

  ghost function Report(budgets: BudgetTable, key: Key, sums: Totals): Gate
    requires Closes(budgets, key, sums)
  {
    if Countable(sums) then Blocked(key, sums.total, budgets[key].limitTokens.value) else Failed
  }

  lemma ScopeMeans(events: seq<CostEvent>, budgets: BudgetTable, key: Key, window: Window)
    ensures
      var sums := UsageSums(events, key, window);
      ScopeGate(events, budgets, key, window) == if Closes(budgets, key, sums) then Report(budgets, key, sums) else Open
    ensures Closes(budgets, key, UsageSums(events, key, window)) ==> Report(budgets, key, UsageSums(events, key, window)) != Open
  {
    hide UsageSums;
  }

  /** The gate: the company's budget, then the agent's, then the employee's where one is named, in the month on the wall. */
  lemma GateMeans(events: seq<CostEvent>, budgets: BudgetTable, company: string, agentId: string, userId: Option<string>, now: int)
    requires Dated(now) && 1000 * 12 <= CurrentCostMonth(now) < 9999 * 12 + 11
    ensures Readable(now)
    ensures
      var window := MonthWindow(CurrentCostMonth(now));
      var c, a := Key(Company, company), Key(Agent, agentId);
      var ofCompany, ofAgent := UsageSums(events, c, window), UsageSums(events, a, window);
      BudgetGate(events, budgets, company, agentId, userId, now) ==
        if Closes(budgets, c, ofCompany) then Report(budgets, c, ofCompany)
        else if Closes(budgets, a, ofAgent) then Report(budgets, a, ofAgent)
        else if userId.None? || AllSpace(userId.value) then Open
        else
          var u := Key(User, Trim(userId.value));
          var ofUser := UsageSums(events, u, window);
          if Closes(budgets, u, ofUser) then Report(budgets, u, ofUser) else Open
  {
    hide MonthWindow, CurrentCostMonth, UsageSums, Closes, Report, ScopeGate, Trim, AllSpace;
    var window := MonthWindow(CurrentCostMonth(now));
    var keys := Candidates(company, agentId, userId);
    ScopeMeans(events, budgets, Key(Company, company), window);
    ScopeMeans(events, budgets, Key(Agent, agentId), window);
    var front := [Key(Company, company), Key(Agent, agentId)];
    if userId.Some? { TrimIsEmpty(userId.value); }
    if userId.None? || Trim(userId.value) == "" {
      assert keys == front + [];
      assert keys[2..] == [];
    } else {
      ScopeMeans(events, budgets, Key(User, Trim(userId.value)), window);
      assert keys == front + [Key(User, Trim(userId.value))];
      assert keys[2..] == [Key(User, Trim(userId.value))] && keys[2..][1..] == [];
    }
    GateOfTwo(events, budgets, keys, window);
  }

  lemma GateOfTwo(events: seq<CostEvent>, budgets: BudgetTable, keys: seq<Key>, window: Window)
    requires |keys| >= 2
    ensures GateOf(events, budgets, keys, window) ==
      if ScopeGate(events, budgets, keys[0], window) != Open then ScopeGate(events, budgets, keys[0], window)
      else if ScopeGate(events, budgets, keys[1], window) != Open then ScopeGate(events, budgets, keys[1], window)
      else GateOf(events, budgets, keys[2..], window)
  {
    assert keys[1..][1..] == keys[2..];
    hide ScopeGate;
  }

  /** The gate is open exactly when no scope in its list is stopped and none fails to read. */
  lemma {:induction false} OpenIffNoScopeStops(events: seq<CostEvent>, budgets: BudgetTable, keys: seq<Key>, window: Window)
    ensures GateOf(events, budgets, keys, window) == Open <==> forall key :: key in keys ==> ScopeGate(events, budgets, key, window) == Open
  {
    if keys != [] {
      OpenIffNoScopeStops(events, budgets, keys[1..], window);
      assert keys == [keys[0]] + keys[1..];
    }
  }

  /** A readable scope blocks exactly when the state shown for it is `stopped`; its report is that scope's own usage and limit. */
  lemma ScopeBlocksIffStopped(events: seq<CostEvent>, budgets: BudgetTable, key: Key, window: Window)
    requires ScopeUsage(events, key, window).Some?
    ensures
      var used := ScopeUsage(events, key, window).value;
      && (BudgetStateFor(Row(budgets, key), used) == Stopped <==> ScopeGate(events, budgets, key, window).Blocked?)
      && (ScopeGate(events, budgets, key, window).Open? || ScopeGate(events, budgets, key, window) == Blocked(key, used, budgets[key].limitTokens.value))
  {
  }

  /** A blocked gate names the first scope that is not open, and that scope is stopped. */
  lemma {:induction false} BlockNamesTheFirst(events: seq<CostEvent>, budgets: BudgetTable, keys: seq<Key>, window: Window) returns (i: nat)
    requires GateOf(events, budgets, keys, window) != Open
    ensures i < |keys| && GateOf(events, budgets, keys, window) == ScopeGate(events, budgets, keys[i], window)
    ensures forall j :: 0 <= j < i ==> ScopeGate(events, budgets, keys[j], window) == Open
  {
    if ScopeGate(events, budgets, keys[0], window) != Open {
      i := 0;
    } else {
      var rest := BlockNamesTheFirst(events, budgets, keys[1..], window);
      i := rest + 1;
    }
  }

  lemma StoppedStaysStopped(row: Option<Budget>, used: nat, later: nat)
    requires BudgetStateFor(row, used) == Stopped && used <= later
    ensures BudgetStateFor(row, later) == Stopped
  {
  }

  lemma ScopeStaysClosed(events: seq<CostEvent>, more: seq<CostEvent>, budgets: BudgetTable, key: Key, window: Window)
    requires ScopeGate(events, budgets, key, window) != Open
    ensures ScopeGate(events + more, budgets, key, window) != Open
    ensures ScopeGate(events, budgets, key, window).Failed? ==> ScopeGate(events + more, budgets, key, window).Failed?
  {
    UsageGrows(events, more, key, window);
    hide UsageSums, BudgetStateFor;
    if ScopeUsage(events + more, key, window).Some? {
      StoppedStaysStopped(Row(budgets, key), ScopeUsage(events, key, window).value, ScopeUsage(events + more, key, window).value);
    }
  }

  /**
   * Once a run is refused, every later run of the same agent and employee is refused until the month on the wall at
   * +08:00 changes, whatever usage is recorded meanwhile, as long as the budgets stay as they are.
   */
  lemma RefusedForTheRestOfTheMonth(events: seq<CostEvent>, more: seq<CostEvent>, budgets: BudgetTable,
                                    company: string, agentId: string, userId: Option<string>, now: int, later: int)
    requires Readable(now) && Readable(later) && CurrentCostMonth(later) == CurrentCostMonth(now)
    requires BudgetGate(events, budgets, company, agentId, userId, now) != Open
    ensures BudgetGate(events + more, budgets, company, agentId, userId, later) != Open
  {
    hide ScopeGate, Candidates, CurrentCostMonth, MonthWindow;
    var keys, window := Candidates(company, agentId, userId), MonthWindow(CurrentCostMonth(now));
    var i := BlockNamesTheFirst(events, budgets, keys, window);
    ScopeStaysClosed(events, more, budgets, keys[i], window);
    OpenIffNoScopeStops(events + more, budgets, keys, window);
  }

  /** Usage of other months counts for nothing: a month with no events of its own is open iff no active budget stops at zero. */
  lemma NewMonthStartsOpen(events: seq<CostEvent>, budgets: BudgetTable, company: string, agentId: string, userId: Option<string>, now: int)
    requires Readable(now)
    requires forall i :: 0 <= i < |events| ==> Dated(events[i].occurredAt) && CurrentCostMonth(events[i].occurredAt) != CurrentCostMonth(now)
    ensures BudgetGate(events, budgets, company, agentId, userId, now) == Open <==>
      forall key :: key in Candidates(company, agentId, userId) && Active(Row(budgets, key)) ==> budgets[key].hardStopPercent > 0
  {
    hide Candidates, CurrentCostMonth, MonthWindow, Within, Dated;
    var keys, month := Candidates(company, agentId, userId), CurrentCostMonth(now);
    var window := MonthWindow(month);
    forall i | 0 <= i < |events| ensures !Within(window, events[i].occurredAt) {
      InstantIsInItsWindow(events[i].occurredAt, month);
    }
    forall key ensures ScopeGate(events, budgets, key, window) == Open <==> (Active(Row(budgets, key)) ==> budgets[key].hardStopPercent > 0) {
      UsageOutside(events, key, window);
      if Active(Row(budgets, key)) { SignOfProduct(budgets[key].limitTokens.value, budgets[key].hardStopPercent); }
    }
    hide ScopeGate;
    OpenIffNoScopeStops(events, budgets, keys, window);
  }

  lemma SignOfProduct(limit: int, percent: int)
    requires limit > 0
    ensures limit * percent <= 0 <==> percent <= 0
  {
  }

  // ---------- changing a budget ----------

  /** A number from a request: absent, or a value that is or is not a safe non-negative integer. */
  datatype Given = Absent | Value(n: int) | NotAnInteger

  datatype UpsertInput = UpsertInput(scope: Option<Scope>, ref: string, limit: Given, warn: Given, hardStop: Given,
                                     enabled: bool, expectedVersion: Option<int>)

  datatype Refusal = BadScope | NoRef | BadLimit | BadPercent | StopBelowWarn | VersionConflict(current: Option<nat>)

  datatype Upserted = Stored(row: Budget) | Refused(why: Refusal)

  function Percent(given: Given, otherwise: int): Option<int>
  {
    match given
    case Absent => Some(otherwise)
    case Value(n) => if 0 <= n <= 100 then Some(n) else None
    case NotAnInteger => None
  }

  predicate GoodLimit(given: Given)
  {
    given.Absent? || (given.Value? && 0 < given.n <= MAX_SAFE_INTEGER)
  }

  function Upsert(budgets: BudgetTable, input: UpsertInput): (BudgetTable, Upserted)
  {
    var ref := Trim(input.ref);
    var warn, hardStop := Percent(input.warn, 80), Percent(input.hardStop, 100);
    if input.scope.None? then (budgets, Refused(BadScope))
    else if ref == "" then (budgets, Refused(NoRef))
    else if !GoodLimit(input.limit) then (budgets, Refused(BadLimit))
    else if warn.None? || hardStop.None? then (budgets, Refused(BadPercent))
    else if hardStop.value < warn.value then (budgets, Refused(StopBelowWarn))
    else
      var key := Key(input.scope.value, ref);
      var existing := Row(budgets, key);
      var current := if existing.Some? then Some(existing.value.version) else None;
      var expected := input.expectedVersion;
      if expected.Some? && expected.value != (if current.Some? then current.value else 0) then (budgets, Refused(VersionConflict(current)))
      else
        var limit := if input.limit.Value? then Some(input.limit.n) else None;
        var row := Budget(limit, warn.value, hardStop.value, input.enabled, if current.Some? then current.value + 1 else 0);
        (budgets[key := row], Stored(row))
  }

  /** The rows that the checks let into the table. */
  predicate RowOk(row: Budget)
  {
    0 <= row.warnPercent <= row.hardStopPercent <= 100 && (row.limitTokens.Some? ==> row.limitTokens.value > 0)
  }

  predicate BudgetsOk(budgets: BudgetTable)
  {
    forall key :: key in budgets ==> RowOk(budgets[key])
  }

  /** The tables after a run of changes, and what each change answered. */
  ghost function AfterUpserts(budgets: BudgetTable, run: seq<UpsertInput>): (BudgetTable, seq<Upserted>)
  {
    if run == [] then (budgets, [])
    else
      var before := AfterUpserts(budgets, run[..|run| - 1]);
      var last := Upsert(before.0, run[|run| - 1]);
      (last.0, before.1 + [last.1])
  }

  ghost function TableAt(budgets: BudgetTable, run: seq<UpsertInput>, i: nat): BudgetTable
    requires i <= |run|
  {
    AfterUpserts(budgets, run[..i]).0
  }

  /** One change keeps every row's form, touches only its own row, and moves that row's version by one or creates it at zero. */
  lemma UpsertStep(budgets: BudgetTable, input: UpsertInput, key: Key)
    requires BudgetsOk(budgets)
    ensures
      var after := Upsert(budgets, input);
      && BudgetsOk(after.0)
      && (after.1.Refused? ==> after.0 == budgets)
      && (key in budgets ==> key in after.0)
      && (key in after.0 && Row(after.0, key) != Row(budgets, key) ==>
            after.1 == Stored(after.0[key]) && input.scope == Some(key.scope) && Trim(input.ref) == key.ref
            && after.0[key].version == if key in budgets then budgets[key].version + 1 else 0)
      && (after.1.Stored? && input.scope == Some(key.scope) && Trim(input.ref) == key.ref ==>
            key in after.0 && after.1.row == after.0[key] && Row(after.0, key) != Row(budgets, key)
            && (input.expectedVersion.Some? ==> input.expectedVersion.value == if key in budgets then budgets[key].version else 0))
  {
  }

  predicate Aims(input: UpsertInput, key: Key)
  {
    input.scope == Some(key.scope) && Trim(input.ref) == key.ref
  }

  /** Over a run a row's version never goes down, and once there the row stays. */
  lemma {:induction false} VersionsRise(budgets: BudgetTable, run: seq<UpsertInput>, i: nat, j: nat, key: Key)
    requires BudgetsOk(budgets) && i <= j <= |run|
    ensures BudgetsOk(TableAt(budgets, run, j))
    ensures key in TableAt(budgets, run, i) ==>
      key in TableAt(budgets, run, j) && TableAt(budgets, run, i)[key].version <= TableAt(budgets, run, j)[key].version
    decreases j
  {
    if j > 0 {
      assert run[..j][..j - 1] == run[..j - 1];
      VersionsRise(budgets, run, if i < j then i else j - 1, j - 1, key);
      UpsertStep(TableAt(budgets, run, j - 1), run[j - 1], key);
      hide Upsert;
    }
  }

  /** The i-th change of a run was stored. */
  ghost predicate StoredAt(budgets: BudgetTable, run: seq<UpsertInput>, i: nat)
    requires i < |run|
  {
    Upsert(TableAt(budgets, run, i), run[i]).1.Stored?
  }

  /**
   * Two changes of one row that name the same expected version are not both stored, with one exception: version 0
   * is accepted by the change that creates the row and once more by the first change after it.
   */
  lemma SameVersionIsStoredTwiceOnlyOnCreation(budgets: BudgetTable, run: seq<UpsertInput>, i: nat, j: nat, key: Key)
    requires BudgetsOk(budgets) && i < j < |run| && Aims(run[i], key) && Aims(run[j], key)
    requires run[i].expectedVersion.Some? && run[i].expectedVersion == run[j].expectedVersion
    requires StoredAt(budgets, run, i) && StoredAt(budgets, run, j)
    ensures key !in TableAt(budgets, run, i) && run[i].expectedVersion == Some(0)
  {
    VersionsRise(budgets, run, 0, i, key);
    VersionsRise(budgets, run, i + 1, j, key);
    assert run[..i + 1][..i] == run[..i];
    UpsertStep(TableAt(budgets, run, i), run[i], key);
    UpsertStep(TableAt(budgets, run, j), run[j], key);
    hide Upsert;
  }

  ghost predicate GoodPercent(given: Given)
  {
    given.Absent? || (given.Value? && 0 <= given.n <= 100)
  }

  ghost function OrElse(given: Given, otherwise: int): int
  {
    if given.Value? then given.n else otherwise
  }

  /** The checks of a change that do not look at the stored row. */
  ghost predicate Admissible(input: UpsertInput)
  {
    && input.scope.Some? && !AllSpace(input.ref)
    && (input.limit.Absent? || (input.limit.Value? && 1 <= input.limit.n <= 9_007_199_254_740_991))
    && GoodPercent(input.warn) && GoodPercent(input.hardStop) && OrElse(input.warn, 80) <= OrElse(input.hardStop, 100)
  }

  /** An admissible change is stored exactly when it names no version or the row's own, which is 0 where there is no row. */
  lemma StoredExactlyWhen(budgets: BudgetTable, input: UpsertInput, key: Key)
    requires Aims(input, key)
    ensures Upsert(budgets, input).1.Stored? <==>
      Admissible(input) && (input.expectedVersion.Some? ==> input.expectedVersion.value == if key in budgets then budgets[key].version else 0)
  {
    TrimIsEmpty(input.ref);
    hide Trim, AllSpace;
  }

  /** The row a stored change leaves: the given limit or none, the percentages or 80 and 100, the next version or 0. */
  lemma StoredRow(budgets: BudgetTable, input: UpsertInput)
    requires Upsert(budgets, input).1.Stored?
    ensures input.scope.Some?
    ensures
      var key := Key(input.scope.value, Trim(input.ref));
      var row := Budget(if input.limit.Value? then Some(input.limit.n) else None, OrElse(input.warn, 80), OrElse(input.hardStop, 100),
                        input.enabled, if key in budgets then budgets[key].version + 1 else 0);
      Upsert(budgets, input) == (budgets[key := row], Stored(row))
  {
    hide Trim;
  }

  /** A change that is not stored leaves the table, and is refused for the first of these reasons that applies. */
  lemma RefusedFor(budgets: BudgetTable, input: UpsertInput)
    requires Upsert(budgets, input).1.Refused?
    ensures Upsert(budgets, input) == (budgets, Refused(
      if input.scope.None? then BadScope
      else if AllSpace(input.ref) then NoRef
      else if input.limit.NotAnInteger? || (input.limit.Value? && !(1 <= input.limit.n <= 9_007_199_254_740_991)) then BadLimit
      else if !GoodPercent(input.warn) || !GoodPercent(input.hardStop) then BadPercent
      else if OrElse(input.hardStop, 100) < OrElse(input.warn, 80) then StopBelowWarn
      else
        var key := Key(input.scope.value, Trim(input.ref));
        VersionConflict(if key in budgets then Some(budgets[key].version) else None)))
  {
    TrimIsEmpty(input.ref);
    hide Trim, AllSpace;
  }

  /** Until the next stored change of it a row keeps its value. */
  lemma {:induction false} RowKept(budgets: BudgetTable, run: seq<UpsertInput>, i: nat, j: nat, key: Key)
    requires BudgetsOk(budgets) && i <= j <= |run|
    requires forall m :: i <= m < j && Aims(run[m], key) ==> !StoredAt(budgets, run, m)
    ensures Row(TableAt(budgets, run, j), key) == Row(TableAt(budgets, run, i), key)
    decreases j - i
  {
    if i < j {
      RowKept(budgets, run, i, j - 1, key);
      VersionsRise(budgets, run, 0, j - 1, key);
      assert run[..j][..j - 1] == run[..j - 1];
      UpsertStep(TableAt(budgets, run, j - 1), run[j - 1], key);
      hide Upsert;
    }
  }

  /**
   * Two admissible changes of one row that name the same version are both stored exactly when the first one creates the
   * row, the version named is 0, and no other change of the row is stored between them.
   */
  lemma SameVersionIsStoredTwiceExactlyWhen(budgets: BudgetTable, run: seq<UpsertInput>, i: nat, j: nat, key: Key)
    requires BudgetsOk(budgets) && i < j < |run| && Aims(run[i], key) && Aims(run[j], key)
    requires Admissible(run[i]) && Admissible(run[j])
    requires run[i].expectedVersion.Some? && run[i].expectedVersion == run[j].expectedVersion
    ensures StoredAt(budgets, run, i) && StoredAt(budgets, run, j) <==>
      && key !in TableAt(budgets, run, i) && run[i].expectedVersion == Some(0)
      && forall m :: i < m < j && Aims(run[m], key) ==> !StoredAt(budgets, run, m)
  {
    VersionsRise(budgets, run, 0, i, key);
    assert run[..i + 1][..i] == run[..i];
    UpsertStep(TableAt(budgets, run, i), run[i], key);
    StoredExactlyWhen(TableAt(budgets, run, i), run[i], key);
    StoredExactlyWhen(TableAt(budgets, run, j), run[j], key);
    hide Upsert, Admissible, Aims;
    if StoredAt(budgets, run, i) && StoredAt(budgets, run, j) {
      SameVersionIsStoredTwiceOnlyOnCreation(budgets, run, i, j, key);
      forall m | i < m < j && Aims(run[m], key) ensures !StoredAt(budgets, run, m) {
        NotBetween(budgets, run, i, m, j, key);
      }
    } else if key !in TableAt(budgets, run, i) && run[i].expectedVersion == Some(0)
           && (forall m :: i < m < j && Aims(run[m], key) ==> !StoredAt(budgets, run, m)) {
      RowKept(budgets, run, i + 1, j, key);
    }
  }

  /** A stored change in between moves the version on, past the one both others name. */
  lemma NotBetween(budgets: BudgetTable, run: seq<UpsertInput>, i: nat, m: nat, j: nat, key: Key)
    requires BudgetsOk(budgets) && i < m < j < |run| && Aims(run[i], key) && Aims(run[m], key) && Aims(run[j], key)
    requires StoredAt(budgets, run, i) && StoredAt(budgets, run, j) && run[j].expectedVersion == Some(0)
    ensures !StoredAt(budgets, run, m)
  {
    hide Upsert, BudgetsOk, Trim;
    VersionsRise(budgets, run, 0, i, key);
    VersionsRise(budgets, run, i + 1, m, key);
    VersionsRise(budgets, run, m + 1, j, key);
    assert run[..i + 1][..i] == run[..i] && run[..m + 1][..m] == run[..m];
    UpsertStep(TableAt(budgets, run, i), run[i], key);
    UpsertStep(TableAt(budgets, run, m), run[m], key);
    UpsertStep(TableAt(budgets, run, j), run[j], key);
  }

  /** So with nothing aimed at the row in between: both are stored exactly when there was no row and 0 is named. */
  lemma NextChangeIsStoredTooExactlyWhen(budgets: BudgetTable, run: seq<UpsertInput>, i: nat, j: nat, key: Key)
    requires BudgetsOk(budgets) && i < j < |run| && Aims(run[i], key) && Aims(run[j], key)
    requires Admissible(run[i]) && Admissible(run[j])
    requires run[i].expectedVersion.Some? && run[i].expectedVersion == run[j].expectedVersion
    requires forall m :: i < m < j ==> !Aims(run[m], key)
    ensures StoredAt(budgets, run, i) && StoredAt(budgets, run, j) <==>
      key !in TableAt(budgets, run, i) && run[i].expectedVersion == Some(0)
  {
    hide Admissible, Aims;
    SameVersionIsStoredTwiceExactlyWhen(budgets, run, i, j, key);
  }

  /** The exception happens: both of these are stored and the first limit is lost. */
  lemma VersionZeroIsAcceptedTwice()
    ensures
      var first := UpsertInput(Some(Agent), "a", Value(10), Absent, Absent, true, Some(0));
      var second := first.(limit := Value(20));
      AfterUpserts(map[], [first, second]).1 == [Stored(Budget(Some(10), 80, 100, true, 0)), Stored(Budget(Some(20), 80, 100, true, 1))]
  {
    var first := UpsertInput(Some(Agent), "a", Value(10), Absent, Absent, true, Some(0));
    var second := first.(limit := Value(20));
    TrimKeeps("a");
    var empty: BudgetTable := map[];
    var one, two := [first], [first, second];
    var row := Budget(Some(10), 80, 100, true, 0);
    assert one[..|one| - 1] == [] && two[..|two| - 1] == one;
    assert Upsert(empty, first) == (empty[Key(Agent, "a") := row], Stored(row));
    assert AfterUpserts(empty, []) == (empty, []);
    assert AfterUpserts(empty, one) == (empty[Key(Agent, "a") := row], [] + [Stored(row)]);
    assert AfterUpserts(empty, two).1 == [Stored(row)] + [Stored(Budget(Some(20), 80, 100, true, 1))];
  }

  // ---------- the store ----------

  datatype CostInput = CostInput(agentId: Option<string>, userId: Option<string>, input: Option<int>, output: Option<int>,
                                 total: Option<int>, occurredAt: Option<int>)

  function IntOrNull(value: Option<int>): Option<nat>
  {
    if value.Some? && 0 <= value.value <= MAX_SAFE_INTEGER then Some(value.value) else None
  }

  function EventOf(input: CostInput, now: int): CostEvent
  {
    var i, o, t := IntOrNull(input.input), IntOrNull(input.output), IntOrNull(input.total);
    CostEvent(if input.occurredAt.Some? then input.occurredAt.value else now, input.agentId, input.userId, i, o,
              if t.Some? then t.value else OrZero(i) + OrZero(o))
  }

  /** A number that is kept: given, not negative and safe. */
  ghost predicate Counter(value: Option<int>)
  {
    value.Some? && 0 <= value.value <= 9_007_199_254_740_991
  }

  class Store {
    var events: seq<CostEvent>
    var budgets: BudgetTable

    constructor ()
      ensures events == [] && budgets == map[]
    {
      events, budgets := [], map[];
    }

    method RecordCostEvent(input: CostInput, now: int) returns (event: CostEvent)
      modifies this`events
      ensures events == old(events) + [event]
      ensures event.occurredAt == (if input.occurredAt.Some? then input.occurredAt.value else now)
      ensures event.agentId == input.agentId && event.userId == input.userId
      ensures event.inputTokens == (if Counter(input.input) then Some(input.input.value) else None)
      ensures event.outputTokens == (if Counter(input.output) then Some(input.output.value) else None)
      ensures Counter(input.total) ==> event.totalTokens == input.total.value
      ensures !Counter(input.total) ==>
                event.totalTokens == (if Counter(input.input) then input.input.value else 0) + (if Counter(input.output) then input.output.value else 0)
    {
      event := EventOf(input, now);
      events := events + [event];
    }

    method UpsertBudget(input: UpsertInput) returns (answer: Upserted)
      modifies this`budgets
      ensures (budgets, answer) == Upsert(old(budgets), input)
      ensures BudgetsOk(old(budgets)) ==> BudgetsOk(budgets)
    {
      if input.scope.None? { return Refused(BadScope); }
      var ref := Trim(input.ref);
      if ref == "" { return Refused(NoRef); }
      if !GoodLimit(input.limit) { return Refused(BadLimit); }
      var warn := Percent(input.warn, 80);
      if warn.None? { return Refused(BadPercent); }
      var hardStop := Percent(input.hardStop, 100);
      if hardStop.None? { return Refused(BadPercent); }
      if hardStop.value < warn.value { return Refused(StopBelowWarn); }
      var key := Key(input.scope.value, ref);
      var version := 0;
      if key in budgets {
        if input.expectedVersion.Some? && input.expectedVersion.value != budgets[key].version {
          return Refused(VersionConflict(Some(budgets[key].version)));
        }
        version := budgets[key].version + 1;
      } else if input.expectedVersion.Some? && input.expectedVersion.value != 0 {
        return Refused(VersionConflict(None));
      }
      var row := Budget(if input.limit.Value? then Some(input.limit.n) else None, warn.value, hardStop.value, input.enabled, version);
      budgets := budgets[key := row];
      answer := Stored(row);
    }

    /** The gate before a run: a loop over the scopes that stops at the first one that is not open. */
    method BudgetBlockFor(company: string, agentId: string, userId: Option<string>, now: int) returns (gate: Gate)
      requires Readable(now)
      ensures gate == BudgetGate(events, budgets, company, agentId, userId, now)
    {
      hide CurrentCostMonth, MonthWindow, UsageSums;
      var window := MonthWindow(CurrentCostMonth(now));
      var keys := [Key(Company, company), Key(Agent, agentId)];
      if userId.Some? && Trim(userId.value) != "" { keys := keys + [Key(User, Trim(userId.value))]; }
      assert keys == Candidates(company, agentId, userId);
      hide Candidates;
      for i := 0 to |keys|
        invariant GateOf(events, budgets, keys, window) == GateOf(events, budgets, keys[i..], window)
      {
        assert keys[i..][1..] == keys[i + 1..];
        var row := Row(budgets, keys[i]);
        if !Active(row) { continue; }
        var used := ScopeUsage(events, keys[i], window);
        if used.None? { return Failed; }
        if used.value * 100 >= row.value.limitTokens.value * row.value.hardStopPercent {
          return Blocked(keys[i], used.value, row.value.limitTokens.value);
        }
      }
      return Open;
    }
  }
}
