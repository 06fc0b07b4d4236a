/** The collaboration stages: evidence pointers, offered targets, the checklist and remote syncs. */
module Stages {
  import opened Prelude

  /** A stage code. `Other` stands for every text that the tables do not name. */
  datatype Code =
    | InitialContact | Interested | Evaluating | QuotePending | Negotiating | PlanPending | Contracting
    | SamplePending | Shipped | Testing | ContentPlanning | ContentReview | PublishPending | Published | Settling
    | Paused | Lost | Rejected | Cancelled | Disputed | Completed
    | InterestConfirmed | CooperationEvaluation | BusinessNegotiation | ContractSigning
    | DeliveredTesting | PendingPublish | SettlingPaid | ExceptionHandling
    | ExceptionNode | Other(text: string)

  /** The tables the stage algebra runs over. */
  datatype Catalog = Catalog(main: seq<Code>, next: map<Code, Option<Code>>, aliases: map<Code, Code>)

  predicate IsSide(code: Code)
  {
    code.Paused? || code.Lost? || code.Rejected? || code.Cancelled? || code.Disputed? || code.Completed?
  }

  predicate IsTerminal(code: Code)
  {
    code.Lost? || code.Rejected? || code.Cancelled? || code.Completed?
  }

  /** A side stage that can be left again. */
  predicate IsBypass(code: Code)
  {
    code.Paused? || code.Disputed?
  }

  predicate Known(cat: Catalog, code: Code)
  {
    code in cat.main || IsSide(code)
  }

  predicate DuplicateFree<T(==)>(s: seq<T>)
  {
    forall i, j :: 0 <= i < j < |s| ==> s[i] != s[j]
  }

  /** What the tables promise: one line of stages, the next-stage table along it, and aliases of known codes. */
  ghost predicate WellFormed(cat: Catalog)
  {
    && DuplicateFree(cat.main)
    && (forall code :: code in cat.main ==> !IsSide(code) && code != ExceptionNode)
    && (forall i, j :: 0 <= i < j < |cat.main| && j == i + 1 ==> Next(cat, cat.main[i]) == Some(cat.main[j]))
    && (|cat.main| > 0 ==> Next(cat, cat.main[|cat.main| - 1]) == Some(Completed))
    && (forall code :: IsSide(code) ==> Next(cat, code) == None)
    && (forall code :: code in cat.aliases ==> !Known(cat, code) && code != ExceptionNode && Known(cat, cat.aliases[code]))
  }

  function Normalize(cat: Catalog, code: Code): Code
  {
    if code in cat.aliases then cat.aliases[code] else code
  }

  function Next(cat: Catalog, code: Code): Option<Code>
  {
    if code in cat.next then cat.next[code] else None
  }

  function IndexOf(s: seq<Code>, code: Code): (i: int)
    ensures -1 <= i < |s|
    ensures i >= 0 ==> s[i] == code
    ensures forall k :: 0 <= k < |s| && (i < 0 || k < i) ==> s[k] != code
  {
    IndexFrom(s, code, 0)
  }

  function IndexFrom(s: seq<Code>, code: Code, start: nat): (i: int)
    requires start <= |s|
    ensures -1 <= i < |s|
    ensures i >= 0 ==> start <= i && s[i] == code
    ensures forall k :: start <= k < |s| && (i < 0 || k < i) ==> s[k] != code
    decreases |s| - start
  {
    if start == |s| then -1 else if s[start] == code then start else IndexFrom(s, code, start + 1)
  }

  // ---------- the shipped tables ----------

  const SHIPPED_LINE := [
    InitialContact, Interested, Evaluating, QuotePending, Negotiating, PlanPending, Contracting, SamplePending,
    Shipped, Testing, ContentPlanning, ContentReview, PublishPending, Published, Settling ]

  const SHIPPED_NEXT: map<Code, Option<Code>> := map[
    InitialContact := Some(Interested), Interested := Some(Evaluating), Evaluating := Some(QuotePending),
    QuotePending := Some(Negotiating), Negotiating := Some(PlanPending), PlanPending := Some(Contracting),
    Contracting := Some(SamplePending), SamplePending := Some(Shipped), Shipped := Some(Testing),
    Testing := Some(ContentPlanning), ContentPlanning := Some(ContentReview), ContentReview := Some(PublishPending),
    PublishPending := Some(Published), Published := Some(Settling), Settling := Some(Completed),
    Paused := None, Disputed := None, Lost := None, Rejected := None, Cancelled := None, Completed := None ]

  const SHIPPED_ALIASES: map<Code, Code> := map[
    InterestConfirmed := Interested, CooperationEvaluation := Evaluating, BusinessNegotiation := Negotiating,
    ContractSigning := Contracting, DeliveredTesting := Testing, PendingPublish := PublishPending,
    SettlingPaid := Settling, ExceptionHandling := Disputed ]

  const SHIPPED_CATALOG := Catalog(SHIPPED_LINE, SHIPPED_NEXT, SHIPPED_ALIASES)

  /** The place of a code among the 15 official stages; 15 for every other code. */
  ghost function Ordinal(code: Code): nat
  {
    match code
    case InitialContact => 0 case Interested => 1 case Evaluating => 2 case QuotePending => 3 case Negotiating => 4
    case PlanPending => 5 case Contracting => 6 case SamplePending => 7 case Shipped => 8 case Testing => 9
    case ContentPlanning => 10 case ContentReview => 11 case PublishPending => 12 case Published => 13
    case Settling => 14 case _ => 15
  }

  lemma ShippedLineByOrdinal(code: Code)
    ensures code in SHIPPED_LINE <==> Ordinal(code) < 15
    ensures code in SHIPPED_LINE ==> SHIPPED_LINE[Ordinal(code)] == code
  {
    if Ordinal(code) < 15 { assert SHIPPED_LINE[Ordinal(code)] == code; }
  }

  lemma ShippedNextByOrdinal(code: Code)
    requires Ordinal(code) < 15
    ensures code in SHIPPED_NEXT
    ensures SHIPPED_NEXT[code] == Some(if Ordinal(code) < 14 then SHIPPED_LINE[Ordinal(code) + 1] else Completed)
  {
  }

  lemma ShippedAliasesByOrdinal(code: Code)
    requires code in SHIPPED_ALIASES
    ensures Ordinal(code) == 15 && !IsSide(code) && code != ExceptionNode
    ensures Ordinal(SHIPPED_ALIASES[code]) < 15 || IsSide(SHIPPED_ALIASES[code])
  {
  }

  lemma ShippedOrdinals(i: nat)
    requires i < 15
    ensures Ordinal(SHIPPED_LINE[i]) == i
  {
  }

  lemma ShippedLineIsALine()
    ensures |SHIPPED_LINE| == 15 && DuplicateFree(SHIPPED_LINE)
    ensures forall code :: code in SHIPPED_LINE ==> !IsSide(code) && code != ExceptionNode
  {
    forall i, j | 0 <= i < j < 15 ensures SHIPPED_LINE[i] != SHIPPED_LINE[j] {
      ShippedOrdinals(i);
      ShippedOrdinals(j);
    }
    forall code | code in SHIPPED_LINE ensures !IsSide(code) && code != ExceptionNode {
      ShippedLineByOrdinal(code);
    }
  }

  lemma ShippedNextFollowsTheLine(i: nat)
    requires i < 15
    ensures Next(SHIPPED_CATALOG, SHIPPED_LINE[i]) == Some(if i < 14 then SHIPPED_LINE[i + 1] else Completed)
  {
    ShippedOrdinals(i);
    ShippedNextByOrdinal(SHIPPED_LINE[i]);
  }

  lemma ShippedSidesHaveNoNext(code: Code)
    requires IsSide(code)
    ensures Next(SHIPPED_CATALOG, code) == None
  {
  }

  lemma ShippedAliasesResolve(code: Code)
    requires code in SHIPPED_ALIASES
    ensures !Known(SHIPPED_CATALOG, code) && code != ExceptionNode && Known(SHIPPED_CATALOG, SHIPPED_ALIASES[code])
  {
    ShippedAliasesByOrdinal(code);
    ShippedLineByOrdinal(code);
    ShippedLineByOrdinal(SHIPPED_ALIASES[code]);
  }

  /** The shipped line, next-stage table and alias table agree with each other. */
  lemma ShippedCatalogIsWellFormed()
    ensures WellFormed(SHIPPED_CATALOG)
    ensures |SHIPPED_LINE| == 15 && SHIPPED_LINE[0] == InitialContact && SHIPPED_LINE[14] == Settling
  {
    hide Ordinal, DuplicateFree, IsSide, Next, Known;
    ShippedLineIsALine();
    var cat := SHIPPED_CATALOG;
    assert cat.main == SHIPPED_LINE && cat.aliases == SHIPPED_ALIASES;
    forall i, j | 0 <= i < j < |cat.main| && j == i + 1 ensures Next(cat, cat.main[i]) == Some(cat.main[j]) {
      ShippedNextFollowsTheLine(i);
    }
    ShippedNextFollowsTheLine(14);
    forall code | IsSide(code) ensures Next(SHIPPED_CATALOG, code) == None { ShippedSidesHaveNoNext(code); }
    forall code | code in SHIPPED_ALIASES
      ensures !Known(SHIPPED_CATALOG, code) && code != ExceptionNode && Known(SHIPPED_CATALOG, SHIPPED_ALIASES[code])
    {
      ShippedAliasesResolve(code);
    }
  }

  /** The old codes and the stages they are read as; every other code is read as itself. */
  lemma OldCodesResolve(code: Code)
    ensures Normalize(SHIPPED_CATALOG, code) == match code
      case InterestConfirmed => Interested
      case CooperationEvaluation => Evaluating
      case BusinessNegotiation => Negotiating
      case ContractSigning => Contracting
      case DeliveredTesting => Testing
      case PendingPublish => PublishPending
      case SettlingPaid => Settling
      case ExceptionHandling => Disputed
      case _ => code
  {
  }

  lemma NextOnLine(cat: Catalog, i: nat)
    requires WellFormed(cat) && i < |cat.main|
    ensures Next(cat, cat.main[i]) == Some(if i + 1 < |cat.main| then cat.main[i + 1] else Completed)
    ensures Next(cat, cat.main[i]).value !in SIDE_EXITS && Next(cat, cat.main[i]).value != ExceptionNode
  {
    if i + 1 < |cat.main| { assert cat.main[i + 1] in cat.main; }
  }

  // ---------- evidence ----------

  /** The known stages among the evidence, aliases resolved. */
  function Facts(cat: Catalog, evidence: seq<Code>): set<Code>
  {
    set code | code in evidence && Known(cat, Normalize(cat, code)) :: Normalize(cat, code)
  }

  /** The first index at or after `i` whose stage is not in `done`. */
  function FirstOpen(main: seq<Code>, done: set<Code>, i: nat): (j: nat)
    requires i <= |main|
    ensures i <= j <= |main|
    ensures forall k :: i <= k < j ==> main[k] in done
    ensures j < |main| ==> main[j] !in done
    decreases |main| - i
  {
    if i < |main| && main[i] in done then FirstOpen(main, done, i + 1) else i
  }

  lemma FirstOpenIs(main: seq<Code>, done: set<Code>, i: nat, j: nat)
    requires i <= j <= |main| && (forall k :: i <= k < j ==> main[k] in done) && (j < |main| ==> main[j] !in done)
    ensures FirstOpen(main, done, i) == j
  {
  }

  datatype Pointing = Pointing(pointer: Option<Code>, completed: seq<Code>)

  function EvidencedPointer(cat: Catalog, current: Code, evidence: seq<Code>): Pointing
  {
    var here := Normalize(cat, current);
    var from := IndexOf(cat.main, here);
    if !Known(cat, here) || IsTerminal(here) || IsBypass(here) then Pointing(None, [])
    else if from < 0 then Pointing(Next(cat, here), [])
    else
      var stop := FirstOpen(cat.main, Facts(cat, evidence), from + 1);
      if stop > from + 1 then Pointing(Some(cat.main[stop - 1]), cat.main[from + 1..stop - 1])
      else Pointing(Next(cat, here), [])
  }

  /** The pointer of a main stage whose evidenced stretch ends at `i`. */
  lemma PointerAtEnd(cat: Catalog, current: Code, evidence: seq<Code>, i: nat)
    requires
      var from := IndexOf(cat.main, Normalize(cat, current));
      && Known(cat, Normalize(cat, current)) && !IsTerminal(Normalize(cat, current)) && !IsBypass(Normalize(cat, current))
      && 0 <= from < i <= |cat.main| && (forall k :: from < k < i ==> cat.main[k] in Facts(cat, evidence))
      && (i < |cat.main| ==> cat.main[i] !in Facts(cat, evidence))
    ensures
      var from := IndexOf(cat.main, Normalize(cat, current));
      EvidencedPointer(cat, current, evidence)
        == if i > from + 1 then Pointing(Some(cat.main[i - 1]), cat.main[from + 1..i - 1]) else Pointing(Next(cat, Normalize(cat, current)), [])
  {
    hide IndexOf, Facts, Normalize, Next, FirstOpen, Known;
    FirstOpenIs(cat.main, Facts(cat, evidence), IndexOf(cat.main, Normalize(cat, current)) + 1, i);
  }

  lemma DropLast<T>(s: seq<T>, a: nat, i: nat)
    requires a < i <= |s|
    ensures s[a..i][..|s[a..i]| - 1] == s[a..i - 1] && s[a..i][|s[a..i]| - 1] == s[i - 1]
  {
  }

  method FindEvidencedPointer(cat: Catalog, current: Code, evidence: seq<Code>) returns (r: Pointing)
    ensures r == EvidencedPointer(cat, current, evidence)
  {
    hide IndexOf, Facts, Normalize, Next, FirstOpen;
    var here := Normalize(cat, current);
    if !Known(cat, here) || IsTerminal(here) { return Pointing(None, []); }
    if IsBypass(here) { return Pointing(None, []); }
    var facts := Facts(cat, evidence);
    var from := IndexOf(cat.main, here);
    if from < 0 { return Pointing(Next(cat, here), []); }
    hide EvidencedPointer;
    var consecutive := [];
    var i := from + 1;
    while i < |cat.main|
      invariant from < i <= |cat.main|
      invariant consecutive == cat.main[from + 1..i]
      invariant forall k :: from < k < i ==> cat.main[k] in facts
    {
      if cat.main[i] !in facts { break; }
      assert cat.main[from + 1..i + 1] == cat.main[from + 1..i] + [cat.main[i]];
      consecutive := consecutive + [cat.main[i]];
      i := i + 1;
    }
    PointerAtEnd(cat, current, evidence, i);
    if consecutive != [] {
      DropLast(cat.main, from + 1, i);
      return Pointing(Some(consecutive[|consecutive| - 1]), consecutive[..|consecutive| - 1]);
    }
    return Pointing(Next(cat, here), []);
  }

  // ---------- offered targets ----------

  const SIDE_EXITS := [Paused, Lost, Rejected, Cancelled, Disputed]

  /** The targets that facts may write without a human. */
  function AutoTargets(cat: Catalog, current: Code): seq<Code>
  {
    var here := Normalize(cat, current);
    if !Known(cat, here) || IsTerminal(here) then []
    else if IsBypass(here) then cat.main
    else (if Next(cat, here).Some? then [Next(cat, here).value] else []) + SIDE_EXITS
  }

  method AutoLegalTargets(cat: Catalog, current: Code) returns (out: seq<Code>)
    requires WellFormed(cat)
    ensures out == AutoTargets(cat, current)
  {
    hide IndexOf;
    var here := Normalize(cat, current);
    if !Known(cat, here) || IsTerminal(here) { return []; }
    if IsBypass(here) { return cat.main; }
    out := [];
    NextOnLine(cat, IndexOf(cat.main, here));
    hide WellFormed;
    var next := Next(cat, here);
    if next.Some? { out := out + [next.value]; }
    ghost var first := out;
    for i := 0 to |SIDE_EXITS|
      invariant out == first + SIDE_EXITS[..i]
    {
      assert SIDE_EXITS[i] !in first;
      assert SIDE_EXITS[i] !in SIDE_EXITS[..i];
      if SIDE_EXITS[i] !in out { out := out + [SIDE_EXITS[i]]; }
    }
  }

  /** The pointer that the offered targets stop at: the first open stage after `from`. */
  function OpenPointer(cat: Catalog, here: Code, from: nat, done: set<Code>): Option<Code>
    requires from < |cat.main|
  {
    var open := FirstOpen(cat.main, done, from + 1);
    if open < |cat.main| then Some(cat.main[open])
    else if Next(cat, here).Some? && Next(cat, here).value !in cat.main then Next(cat, here)
    else None
  }

  /** `extra` put right after `anchor`, or in front where there is no anchor. */
  function SplicedAfter(base: seq<Code>, anchor: Option<Code>, extra: Code): seq<Code>
  {
    var at := if anchor.Some? then IndexOf(base, anchor.value) else -1;
    if at >= 0 then base[..at + 1] + [extra] + base[at + 1..] else [extra] + base
  }

  function TargetsWithEvidence(cat: Catalog, current: Code, completed: seq<Code>): seq<Code>
  {
    var base := AutoTargets(cat, current);
    var here := Normalize(cat, current);
    var from := IndexOf(cat.main, here);
    if !Known(cat, here) || IsTerminal(here) then []
    else if IsBypass(here) then cat.main
    else if from < 0 then base
    else
      var pointer := OpenPointer(cat, here, from, Facts(cat, completed));
      if pointer.None? || pointer.value in base then base else SplicedAfter(base, Next(cat, here), pointer.value)
  }

  method LegalTargetsWithEvidence(cat: Catalog, current: Code, completed: seq<Code>) returns (out: seq<Code>)
    requires WellFormed(cat)
    ensures out == TargetsWithEvidence(cat, current, completed)
  {
    hide IndexOf, AutoTargets, Facts, SplicedAfter, Normalize, Next, FirstOpen;
    var base := AutoLegalTargets(cat, current);
    hide WellFormed;
    var here := Normalize(cat, current);
    if !Known(cat, here) || IsTerminal(here) { return []; }
    if IsBypass(here) { return cat.main; }
    var done := Facts(cat, completed);
    var from := IndexOf(cat.main, here);
    if from < 0 { return base; }
    var pointer := None;
    var i := from + 1;
    while i < |cat.main|
      invariant from < i <= |cat.main|
      invariant pointer == None
      invariant forall k :: from < k < i ==> cat.main[k] in done
    {
      if cat.main[i] in done { i := i + 1; continue; }
      pointer := Some(cat.main[i]);
      break;
    }
    FirstOpenIs(cat.main, done, from + 1, i);
    if pointer.None? {
      var next := Next(cat, here);
      if next.Some? && next.value !in cat.main { pointer := next; }
    }
    assert pointer == OpenPointer(cat, here, from, done);
    out := base;
    if pointer.Some? && pointer.value !in out {
      out := SplicedAfter(out, Next(cat, here), pointer.value);
    }
  }

  // ---------- what the evidence computations promise ----------

  /** Where a pointer stands: its index on the line, or just past the line. */
  function Position(cat: Catalog, code: Code): nat
  {
    var i := IndexOf(cat.main, code);
    if i < 0 then |cat.main| else i
  }

  lemma MainStage(cat: Catalog, current: Code) returns (from: nat)
    requires WellFormed(cat) && Normalize(cat, current) in cat.main
    ensures from < |cat.main| && cat.main[from] == Normalize(cat, current) && IndexOf(cat.main, Normalize(cat, current)) == from
    ensures forall k :: 0 <= k < |cat.main| ==> Position(cat, cat.main[k]) == k
    ensures Position(cat, Completed) == |cat.main|
  {
    from := IndexOf(cat.main, Normalize(cat, current));
    hide IndexOf, Normalize;
    assert IsSide(Completed);
  }

  /** The index the pointer of a main stage stands at. */
  ghost function PointerIndex(cat: Catalog, from: nat, facts: set<Code>): nat
    requires from < |cat.main|
  {
    var stop := FirstOpen(cat.main, facts, from + 1);
    if stop > from + 1 then stop - 1 else from + 1
  }

  lemma PointerFromMain(cat: Catalog, current: Code, evidence: seq<Code>, from: nat)
    requires WellFormed(cat) && from < |cat.main| && cat.main[from] == Normalize(cat, current)
    ensures
      var at := PointerIndex(cat, from, Facts(cat, evidence));
      EvidencedPointer(cat, current, evidence)
        == Pointing(Some(if at < |cat.main| then cat.main[at] else Completed), cat.main[from + 1..at])
  {
    hide IndexOf, Facts, Normalize;
    NextOnLine(cat, from);
    assert cat.main[from] in cat.main;
    assert cat.main[from + 1..from + 1] == [];
  }

  /**
   * From a main stage, everything strictly between it and the pointer is evidenced and is what is reported as
   * completed; and the pointer is the last evidenced stage of that stretch, or the next stage where there is none.
   * Only from the last stage does it leave the line, for the completion.
   */
  lemma PointerPassesOnlyEvidence(cat: Catalog, current: Code, evidence: seq<Code>)
    requires WellFormed(cat) && Normalize(cat, current) in cat.main
    ensures
      var from := Position(cat, Normalize(cat, current));
      var r := EvidencedPointer(cat, current, evidence);
      && r.pointer.Some?
      && var at := Position(cat, r.pointer.value);
      && from < at && r.completed == cat.main[from + 1..at]
      && (forall code :: code in r.completed ==> code in Facts(cat, evidence))
      && (at < |cat.main| && cat.main[at] in Facts(cat, evidence) && at + 1 < |cat.main| ==> cat.main[at + 1] !in Facts(cat, evidence))
      && (at < |cat.main| && cat.main[at] !in Facts(cat, evidence) ==> at == from + 1)
      && (at == |cat.main| <==> from + 1 == |cat.main|)
      && r.pointer.value == (if at < |cat.main| then cat.main[at] else Completed)
  {
    hide IndexOf, Facts, Normalize, EvidencedPointer;
    var from := MainStage(cat, current);
    PointerFromMain(cat, current, evidence, from);
    hide WellFormed;
    PassedAreFacts(cat, from, Facts(cat, evidence));
  }

  lemma PassedAreFacts(cat: Catalog, from: nat, facts: set<Code>)
    requires from < |cat.main|
    ensures
      var at := PointerIndex(cat, from, facts);
      && from < at <= |cat.main|
      && (forall code :: code in cat.main[from + 1..at] ==> code in facts)
      && (at < |cat.main| && cat.main[at] in facts && at + 1 < |cat.main| ==> cat.main[at + 1] !in facts)
      && (at < |cat.main| && cat.main[at] !in facts ==> at == from + 1)
      && (at == |cat.main| <==> from + 1 == |cat.main|)
  {
    var at := PointerIndex(cat, from, facts);
    var passed := cat.main[from + 1..at];
    assert forall k :: 0 <= k < |passed| ==> passed[k] == cat.main[from + 1 + k];
  }

  /** Off the line there is no pointer. */
  lemma NoPointerOffTheLine(cat: Catalog, current: Code, evidence: seq<Code>)
    requires Normalize(cat, current) !in cat.main
    ensures EvidencedPointer(cat, current, evidence) == Pointing(None, [])
  {
  }

  /** Evidence counts under its present name, for the stages of the line and the side stages. */
  lemma EvidenceCounts(cat: Catalog, evidence: seq<Code>, code: Code)
    ensures code in Facts(cat, evidence) <==>
              && (code in cat.main || code in {Paused, Lost, Rejected, Cancelled, Disputed, Completed})
              && exists k :: 0 <= k < |evidence| && code == if evidence[k] in cat.aliases then cat.aliases[evidence[k]] else evidence[k]
  {
    hide Known;
    KnownCodes(cat, code);
    if code in Facts(cat, evidence) {
      var raw :| raw in evidence && Known(cat, Normalize(cat, raw)) && Normalize(cat, raw) == code;
      var k :| 0 <= k < |evidence| && evidence[k] == raw;
    } else if k :| 0 <= k < |evidence| && Normalize(cat, evidence[k]) == code {
      assert evidence[k] in evidence;
    }
  }

  lemma KnownCodes(cat: Catalog, code: Code)
    ensures Known(cat, code) <==> code in cat.main || code in {Paused, Lost, Rejected, Cancelled, Disputed, Completed}
  {
  }

  /** More evidence never moves the pointer back. */
  lemma PointerIsMonotone(cat: Catalog, current: Code, less: seq<Code>, more: seq<Code>)
    requires WellFormed(cat) && Normalize(cat, current) in cat.main
    requires forall code :: code in less ==> code in more
    ensures EvidencedPointer(cat, current, less).pointer.Some? && EvidencedPointer(cat, current, more).pointer.Some?
    ensures Position(cat, EvidencedPointer(cat, current, less).pointer.value) <= Position(cat, EvidencedPointer(cat, current, more).pointer.value)
  {
    hide IndexOf, Normalize, EvidencedPointer;
    var from := MainStage(cat, current);
    PointerFromMain(cat, current, less, from);
    PointerFromMain(cat, current, more, from);
    FirstOpenIsMonotone(cat.main, Facts(cat, less), Facts(cat, more), from + 1);
  }

  lemma {:induction false} FirstOpenIsMonotone(main: seq<Code>, less: set<Code>, more: set<Code>, i: nat)
    requires less <= more && i <= |main|
    ensures FirstOpen(main, less, i) <= FirstOpen(main, more, i)
    decreases |main| - i
  {
    if i < |main| && main[i] in less { FirstOpenIsMonotone(main, less, more, i + 1); }
  }

  /** What is offered from a main stage: its successor, the side exits and the first open stage behind it. */
  lemma TargetsFromMain(cat: Catalog, current: Code, completed: seq<Code>, from: nat, code: Code)
    requires WellFormed(cat) && from < |cat.main| && cat.main[from] == Normalize(cat, current)
    ensures code in TargetsWithEvidence(cat, current, completed) <==>
            || code in SIDE_EXITS
            || Next(cat, cat.main[from]) == Some(code)
            || OpenPointer(cat, cat.main[from], from, Facts(cat, completed)) == Some(code)
  {
    hide IndexOf, Normalize, Facts, OpenPointer, SplicedAfter;
    var here := cat.main[from];
    assert here in cat.main && IndexOf(cat.main, here) == from;
    NextOnLine(cat, from);
    var pointer := OpenPointer(cat, here, from, Facts(cat, completed));
    if pointer.Some? { SplicedHas(AutoTargets(cat, current), Next(cat, here), pointer.value); }
  }

  /** The pointer is always among the targets offered for the stages it reports as completed. */
  lemma PointerIsOffered(cat: Catalog, current: Code, evidence: seq<Code>)
    requires WellFormed(cat)
    ensures
      var r := EvidencedPointer(cat, current, evidence);
      r.pointer.Some? ==> r.pointer.value in TargetsWithEvidence(cat, current, r.completed)
  {
    var here := Normalize(cat, current);
    if here in cat.main {
      hide IndexOf, TargetsWithEvidence, EvidencedPointer, Facts, Normalize;
      var from := MainStage(cat, current);
      PointerFromMain(cat, current, evidence, from);
      var r := EvidencedPointer(cat, current, evidence);
      var at := PointerIndex(cat, from, Facts(cat, evidence));
      TargetsFromMain(cat, current, r.completed, from, r.pointer.value);
      NextOnLine(cat, from);
      if at < |cat.main| {
        CompletedBeforePointer(cat, r.completed, from, at, at);
        FactsOfMain(cat, r.completed);
        OpenAfter(cat.main, Facts(cat, r.completed), from, at);
      }
    }
  }

  lemma OpenAfter(main: seq<Code>, done: set<Code>, from: nat, at: nat)
    requires DuplicateFree(main) && from < at < |main|
    requires forall code :: code in done <==> code in main[from + 1..at]
    ensures FirstOpen(main, done, from + 1) == at
  {
    var passed := main[from + 1..at];
    assert forall m :: 0 <= m < |passed| ==> passed[m] == main[from + 1 + m];
    forall k | from < k < at ensures main[k] in done {
      assert passed[k - from - 1] == main[k];
      assert main[k] in passed;
    }
    assert main[at] !in passed;
  }

  lemma FactsOfMain(cat: Catalog, codes: seq<Code>)
    requires WellFormed(cat) && forall code :: code in codes ==> code in cat.main
    ensures forall code :: code in Facts(cat, codes) <==> code in codes
  {
    forall code ensures code in Facts(cat, codes) <==> code in codes {
      if code in codes { assert Normalize(cat, code) == code; }
    }
  }

  lemma SplicedHas(base: seq<Code>, anchor: Option<Code>, extra: Code)
    ensures extra in SplicedAfter(base, anchor, extra)
    ensures forall code :: code in SplicedAfter(base, anchor, extra) <==> code == extra || code in base
  {
    var at := if anchor.Some? then IndexOf(base, anchor.value) else -1;
    if at >= 0 {
      assert base == base[..at + 1] + base[at + 1..];
    }
  }

  /** A later stage is offered exactly when it is the next one or everything before it is completed and it is not. */
  lemma OnlyCompletedStagesAreSkipped(cat: Catalog, current: Code, completed: seq<Code>, target: nat)
    requires WellFormed(cat) && Normalize(cat, current) in cat.main && target < |cat.main|
    ensures
      var from := Position(cat, Normalize(cat, current));
      var done := Facts(cat, completed);
      cat.main[target] in TargetsWithEvidence(cat, current, completed) <==>
        || target == from + 1
        || (target > from && cat.main[target] !in done && forall k :: from < k < target ==> cat.main[k] in done)
  {
    hide IndexOf, TargetsWithEvidence, Facts;
    var from := MainStage(cat, current);
    NextOnLine(cat, from);
    TargetsFromMain(cat, current, completed, from, cat.main[target]);
    assert cat.main[target] in cat.main && cat.main[target] !in SIDE_EXITS;
    var done := Facts(cat, completed);
    var open := FirstOpen(cat.main, done, from + 1);
    assert OpenPointer(cat, cat.main[from], from, done) == Some(cat.main[target]) <==> open == target;
  }

  /**
   * The whole list from a main stage, in order: its successor, the first open stage behind the completed ones where
   * that is a later one, then the side exits. `open` is that stage's index, or the line's length where there is none.
   */
  lemma TargetsInOrder(cat: Catalog, current: Code, completed: seq<Code>, from: nat, open: nat)
    requires WellFormed(cat) && from < open <= |cat.main| && cat.main[from] == Normalize(cat, current)
    requires forall k :: from < k < open ==> cat.main[k] in Facts(cat, completed)
    requires open < |cat.main| ==> cat.main[open] !in Facts(cat, completed)
    ensures
      var next := if from + 1 < |cat.main| then cat.main[from + 1] else Completed;
      && TargetsWithEvidence(cat, current, completed)
         == [next] + (if from + 1 < open < |cat.main| then [cat.main[open]] else []) + [Paused, Lost, Rejected, Cancelled, Disputed]
      && AutoTargets(cat, current) == [next] + [Paused, Lost, Rejected, Cancelled, Disputed]
  {
    hide IndexOf, Normalize, Facts;
    var here := cat.main[from];
    assert here in cat.main && IndexOf(cat.main, here) == from;
    NextOnLine(cat, from);
    FirstOpenIs(cat.main, Facts(cat, completed), from + 1, open);
    hide FirstOpen, SplicedAfter;
    var base := AutoTargets(cat, current);
    assert base[0] == Next(cat, here).value;
    if from + 1 < open < |cat.main| {
      assert cat.main[open] in cat.main && cat.main[open] !in base;
      SplicedFirst(base, Next(cat, here).value, cat.main[open]);
    }
  }

  lemma SplicedFirst(base: seq<Code>, first: Code, extra: Code)
    requires |base| > 0 && base[0] == first
    ensures SplicedAfter(base, Some(first), extra) == [first] + [extra] + base[1..]
  {
  }

  /** From a side stage that can be left every main stage is offered, in order; from any other code off the line, none. */
  lemma TargetsOffTheLine(cat: Catalog, current: Code, completed: seq<Code>)
    requires Normalize(cat, current) !in cat.main
    ensures TargetsWithEvidence(cat, current, completed) == AutoTargets(cat, current)
    ensures AutoTargets(cat, current) ==
              if Normalize(cat, current) == Paused || Normalize(cat, current) == Disputed then cat.main else []
  {
  }

  // ---------- the checklist ----------

  datatype Status = Done | InProgress | NotStarted | Blocked

  datatype Remark = NoRemark | CurrentPointer | EvidencedButBlocked | UnderException

  datatype CheckItem = CheckItem(code: Code, status: Status, remark: Remark)

  /** `evidence` is the evidenced list where one is given, else the completed list; `given` is a pointer from the caller. */
  function StageChecklist(cat: Catalog, current: Code, completed: seq<Code>, evidence: seq<Code>, exception: bool, given: Option<Code>): seq<CheckItem>
  {
    var here := Normalize(cat, current);
    var done := Facts(cat, completed);
    var facts := Facts(cat, evidence);
    var from := IndexOf(cat.main, here);
    var found := EvidencedPointer(cat, here, evidence).pointer;
    var pointer := if given.Some? then given else if found.Some? then found else Next(cat, here);
    seq(|cat.main|, i requires 0 <= i < |cat.main| => Check(cat, here, from, done, facts, exception, pointer, i))
  }

  function Check(cat: Catalog, here: Code, from: int, done: set<Code>, facts: set<Code>, exception: bool, pointer: Option<Code>, i: nat): CheckItem
    requires i < |cat.main|
  {
    var code := cat.main[i];
    if exception && from >= 0 && i > from then CheckItem(code, Blocked, UnderException)
    else if i < from || (code in done && code != here && pointer != Some(code)) then CheckItem(code, Done, NoRemark)
    else if code == here then CheckItem(code, InProgress, NoRemark)
    else if code in facts && pointer.Some? && IndexOf(cat.main, code) > IndexOf(cat.main, pointer.value)
    then CheckItem(code, Blocked, EvidencedButBlocked)
    else if pointer == Some(code) then CheckItem(code, NotStarted, CurrentPointer)
    else CheckItem(code, NotStarted, NoRemark)
  }

  /**
   * With the pointer's own completed list, the checklist of a main stage reads: done up to the current stage, the
   * current stage in progress, done up to the pointer, the pointer, and behind it blocked exactly where evidenced.
   */
  lemma ChecklistSplits(cat: Catalog, current: Code, evidence: seq<Code>, i: nat)
    requires WellFormed(cat) && Normalize(cat, current) in cat.main && i < |cat.main|
    ensures
      var from := Position(cat, Normalize(cat, current));
      var r := EvidencedPointer(cat, current, evidence);
      r.pointer.Some?
      && var at := Position(cat, r.pointer.value);
      var item := StageChecklist(cat, current, r.completed, evidence, false, None)[i];
      item == CheckItem(cat.main[i],
        if i < from then Done else if i == from then InProgress else if i < at then Done
        else if i == at then NotStarted else if cat.main[i] in Facts(cat, evidence) then Blocked else NotStarted,
        if i == at then CurrentPointer
        else if i > at && cat.main[i] in Facts(cat, evidence) then EvidencedButBlocked else NoRemark)
  {
    hide IndexOf;
    var from := MainStage(cat, current);
    var here := Normalize(cat, current);
    PointerPassesOnlyEvidence(cat, current, evidence);
    var r := EvidencedPointer(cat, current, evidence);
    var at := Position(cat, r.pointer.value);
    CompletedBeforePointer(cat, r.completed, from, at, i);
    FactsOfMain(cat, r.completed);
    ChecklistReadsPointer(cat, current, evidence, i);
    hide EvidencedPointer, StageChecklist, Facts, Normalize, Known, WellFormed;
    assert r.pointer == Some(cat.main[i]) <==> i == at by {
      if at < |cat.main| { assert r.pointer.value == cat.main[at]; }
    }
  }

  /** While an exception stands, everything behind a main stage is blocked, and nothing up to it is. */
  lemma ExceptionBlocksWhatFollows(cat: Catalog, current: Code, completed: seq<Code>, evidence: seq<Code>, given: Option<Code>, i: nat)
    requires WellFormed(cat) && Normalize(cat, current) in cat.main && i < |cat.main|
    ensures
      var item := StageChecklist(cat, current, completed, evidence, true, given)[i];
      var from := Position(cat, Normalize(cat, current));
      item.code == cat.main[i]
      && item.status == (if i < from then Done else if i == from then InProgress else Blocked)
      && (item.remark == UnderException <==> i > from)
  {
    hide Facts, EvidencedPointer, Next, IndexOf;
    var from := MainStage(cat, current);
    hide Normalize, WellFormed;
    var here := Normalize(cat, current);
    assert Position(cat, here) == from && IndexOf(cat.main, here) == from;
    var items := StageChecklist(cat, current, completed, evidence, true, given);
    var found := EvidencedPointer(cat, here, evidence).pointer;
    var pointer := if given.Some? then given else if found.Some? then found else Next(cat, here);
    assert items[i] == Check(cat, here, from, Facts(cat, completed), Facts(cat, evidence), true, pointer, i);
  }

  /** The checklist of a main stage for a pointer on the line that the caller gives, whatever is completed and evidenced. */
  lemma ChecklistWithPointer(cat: Catalog, current: Code, completed: seq<Code>, evidence: seq<Code>, at: nat, i: nat)
    requires WellFormed(cat) && Normalize(cat, current) in cat.main && at < |cat.main| && i < |cat.main|
    ensures
      var item := StageChecklist(cat, current, completed, evidence, false, Some(cat.main[at]))[i];
      var from := Position(cat, Normalize(cat, current));
      && item.code == cat.main[i]
      && (item.status == Done <==> i < from || (i != from && i != at && cat.main[i] in Facts(cat, completed)))
      && (item.status == InProgress <==> i == from)
      && (item.status == Blocked <==>
            i > from && i > at && cat.main[i] !in Facts(cat, completed) && cat.main[i] in Facts(cat, evidence))
      && item.remark == (if i == at > from then CurrentPointer else if item.status == Blocked then EvidencedButBlocked else NoRemark)
  {
    hide Facts, EvidencedPointer, Next, IndexOf;
    var from := MainStage(cat, current);
    hide Normalize;
    var here := Normalize(cat, current);
    assert cat.main[at] == cat.main[i] <==> at == i;
    assert IndexOf(cat.main, cat.main[i]) == i && IndexOf(cat.main, cat.main[at]) == at && IndexOf(cat.main, here) == from;
    hide WellFormed;
    var items := StageChecklist(cat, current, completed, evidence, false, Some(cat.main[at]));
    assert items[i] == Check(cat, here, from, Facts(cat, completed), Facts(cat, evidence), false, Some(cat.main[at]), i);
  }

  lemma CompletedBeforePointer(cat: Catalog, completed: seq<Code>, from: nat, at: nat, i: nat)
    requires DuplicateFree(cat.main) && from < at <= |cat.main| && completed == cat.main[from + 1..at] && i < |cat.main|
    ensures cat.main[i] in completed <==> from < i < at
    ensures forall code :: code in completed ==> code in cat.main
  {
    assert forall m :: 0 <= m < |completed| ==> completed[m] == cat.main[from + 1 + m];
    if from < i < at { assert completed[i - from - 1] == cat.main[i]; }
  }

  lemma ChecklistReadsPointer(cat: Catalog, current: Code, evidence: seq<Code>, i: nat)
    requires WellFormed(cat) && Normalize(cat, current) in cat.main && i < |cat.main|
    ensures
      var here := Normalize(cat, current);
      var r := EvidencedPointer(cat, current, evidence);
      r.pointer.Some? ==>
        StageChecklist(cat, current, r.completed, evidence, false, None)[i]
        == Check(cat, here, IndexOf(cat.main, here), Facts(cat, r.completed), Facts(cat, evidence), false, r.pointer, i)
  {
    hide IndexOf, Facts, Check, FirstOpen;
    var here := Normalize(cat, current);
    assert Normalize(cat, here) == here;
    assert EvidencedPointer(cat, here, evidence) == EvidencedPointer(cat, current, evidence);
  }

  // ---------- syncing a remote stage ----------

  /** `None` stands for a missing or empty code. */
  function MergeRemoteLibraryStage(cat: Catalog, localCode: Option<Code>, remoteCode: Option<Code>, stageVersion: int): Code
  {
    if localCode.None? then
      if remoteCode.None? then InitialContact else Normalize(cat, remoteCode.value)
    else
      var local := Normalize(cat, localCode.value);
      if remoteCode.None? then local
      else
        var remote := Normalize(cat, remoteCode.value);
        var li, ri := IndexOf(cat.main, local), IndexOf(cat.main, remote);
        var confirmed := stageVersion > 0;
        if li >= 0 && ri >= 0 && ri < li then local
        else if confirmed && local != InitialContact && remote == InitialContact then local
        else if confirmed && li < 0 && ri >= 0 then local
        else remote
  }

  /** The stage after each of a row's syncs, the stored one first. */
  ghost function Synced(cat: Catalog, local: Code, remotes: seq<Option<Code>>, stageVersion: int): (stages: seq<Code>)
    ensures |stages| == |remotes| + 1
  {
    if remotes == [] then [local]
    else
      var before := Synced(cat, local, remotes[..|remotes| - 1], stageVersion);
      before + [MergeRemoteLibraryStage(cat, Some(before[|before| - 1]), remotes[|remotes| - 1], stageVersion)]
  }

  lemma NormalizeTwice(cat: Catalog, code: Code)
    requires WellFormed(cat)
    ensures Normalize(cat, Normalize(cat, code)) == Normalize(cat, code)
  {
  }

  /**
   * One sync, by where the two stages stand: the later of two main stages; a remote off the line is always taken; a row
   * off the line is brought back only if it was never confirmed; a missing code yields to the other, and two to the start.
   */
  lemma MergeMeaning(cat: Catalog, local: Option<Code>, remote: Option<Code>, stageVersion: int)
    requires WellFormed(cat) && cat.main != [] && cat.main[0] == InitialContact
    ensures
      var merged := MergeRemoteLibraryStage(cat, local, remote, stageVersion);
      && (local.None? && remote.None? ==> merged == InitialContact)
      && (local.None? && remote.Some? ==> merged == Normalize(cat, remote.value))
      && (local.Some? && remote.None? ==> merged == Normalize(cat, local.value))
      && (local.Some? && remote.Some? ==>
            var here, there := Normalize(cat, local.value), Normalize(cat, remote.value);
            && (there !in cat.main ==> merged == there)
            && (here in cat.main && there in cat.main ==> merged == if Position(cat, here) <= Position(cat, there) then there else here)
            && (here !in cat.main && there in cat.main ==> merged == if stageVersion > 0 then here else there))
  {
    hide Normalize, IndexOf;
    assert IndexOf(cat.main, InitialContact) == 0 && InitialContact in cat.main;
    if local.Some? && remote.Some? {
      StandsWhere(cat, Normalize(cat, local.value));
      StandsWhere(cat, Normalize(cat, remote.value));
    }
    hide WellFormed;
  }

  lemma StandsWhere(cat: Catalog, code: Code)
    ensures code in cat.main <==> IndexOf(cat.main, code) >= 0
    ensures code in cat.main <==> Position(cat, code) < |cat.main|
  {
  }

  lemma MergeNeverRegresses(cat: Catalog, local: Code, remote: Option<Code>, stageVersion: int)
    requires WellFormed(cat) && stageVersion > 0
    ensures
      var merged := MergeRemoteLibraryStage(cat, Some(local), remote, stageVersion);
      && Normalize(cat, merged) == merged
      && (merged in cat.main ==>
            Normalize(cat, local) in cat.main && Position(cat, Normalize(cat, local)) <= Position(cat, merged))
  {
    NormalizeTwice(cat, local);
    if remote.Some? { NormalizeTwice(cat, remote.value); }
    hide IndexOf, Normalize, WellFormed;
  }

  /**
   * A confirmed row's syncs, its stored code an old alias or not: main stages that never go back, and once off the
   * line, off it for good.
   */
  lemma {:induction false} SyncsNeverRegress(cat: Catalog, local: Code, remotes: seq<Option<Code>>, stageVersion: int, i: nat, j: nat)
    requires WellFormed(cat) && stageVersion > 0 && i <= j <= |remotes|
    ensures
      var stages := Synced(cat, local, remotes, stageVersion);
      && (j > 0 ==> Normalize(cat, stages[j]) == stages[j])
      && (Normalize(cat, stages[j]) in cat.main ==>
            && Normalize(cat, stages[i]) in cat.main
            && Position(cat, Normalize(cat, stages[i])) <= Position(cat, Normalize(cat, stages[j])))
  {
    hide WellFormed, Normalize, Position, MergeRemoteLibraryStage;
    if remotes != [] {
      var n := |remotes| - 1;
      SyncsNeverRegress(cat, local, remotes[..n], stageVersion, if i <= n then i else n, if j <= n then j else n);
      MergeNeverRegresses(cat, Synced(cat, local, remotes[..n], stageVersion)[n], remotes[n], stageVersion);
    }
  }

  /** A remote stage off the line always reaches the row; and a confirmed row is then off the line for good. */
  lemma LossIsTakenForGood(cat: Catalog, local: Code, remotes: seq<Option<Code>>, stageVersion: int, k: nat, j: nat)
    requires WellFormed(cat) && cat.main != [] && cat.main[0] == InitialContact && k < j <= |remotes|
    requires remotes[k].Some? && Normalize(cat, remotes[k].value) !in cat.main
    ensures Synced(cat, local, remotes, stageVersion)[k + 1] == Normalize(cat, remotes[k].value)
    ensures stageVersion > 0 ==> Normalize(cat, Synced(cat, local, remotes, stageVersion)[j]) !in cat.main
  {
    hide WellFormed, Normalize, Position, MergeRemoteLibraryStage, Synced;
    SyncedStep(cat, local, remotes, stageVersion, k);
    MergeMeaning(cat, Some(Synced(cat, local, remotes, stageVersion)[k]), remotes[k], stageVersion);
    NormalizeTwice(cat, remotes[k].value);
    if stageVersion > 0 { SyncsNeverRegress(cat, local, remotes, stageVersion, k + 1, j); }
  }

  lemma {:induction false} SyncedStep(cat: Catalog, local: Code, remotes: seq<Option<Code>>, stageVersion: int, k: nat)
    requires k < |remotes|
    ensures
      var stages := Synced(cat, local, remotes, stageVersion);
      stages[0] == local && stages[k + 1] == MergeRemoteLibraryStage(cat, Some(stages[k]), remotes[k], stageVersion)
  {
    hide MergeRemoteLibraryStage;
    var n := |remotes| - 1;
    if k < n {
      SyncedStep(cat, local, remotes[..n], stageVersion, k);
    } else if n > 0 {
      SyncedStep(cat, local, remotes[..n], stageVersion, n - 1);
    }
  }

  /** Exactly when one sync takes a row from a side stage back to the line: when it was never confirmed. */
  lemma OffTheLineReturns(cat: Catalog, local: Code, remote: Option<Code>, stageVersion: int)
    requires WellFormed(cat) && Normalize(cat, local) !in cat.main
    ensures MergeRemoteLibraryStage(cat, Some(local), remote, stageVersion) in cat.main
            <==> remote.Some? && Normalize(cat, remote.value) in cat.main && stageVersion <= 0
  {
    if remote.Some? && Normalize(cat, remote.value) in cat.main {
      assert IndexOf(cat.main, Normalize(cat, local)) < 0;
      assert IndexOf(cat.main, Normalize(cat, remote.value)) >= 0;
    }
  }

  /** Without the confirmation a lost row is revived: the concrete case. */
  lemma UnconfirmedRowIsRevived()
    ensures MergeRemoteLibraryStage(SHIPPED_CATALOG, Some(Lost), Some(Negotiating), 0) == Negotiating
    ensures MergeRemoteLibraryStage(SHIPPED_CATALOG, Some(Lost), Some(Negotiating), 1) == Lost
  {
    ShippedLineByOrdinal(Lost);
    ShippedLineByOrdinal(Negotiating);
    MergeOffTheLine(SHIPPED_CATALOG, Lost, Negotiating);
  }

  lemma MergeOffTheLine(cat: Catalog, local: Code, remote: Code)
    requires local !in cat.aliases && remote !in cat.aliases && local !in cat.main && remote in cat.main && remote != InitialContact
    ensures MergeRemoteLibraryStage(cat, Some(local), Some(remote), 0) == remote
    ensures MergeRemoteLibraryStage(cat, Some(local), Some(remote), 1) == local
  {
  }

  lemma MergeOnTheLine(cat: Catalog, local: Code, remote: Code, stageVersion: int)
    requires WellFormed(cat) && Normalize(cat, local) in cat.main && cat.main[0] == InitialContact && Normalize(cat, remote) in cat.main
    ensures
      var here, there := Normalize(cat, local), Normalize(cat, remote);
      var merged := MergeRemoteLibraryStage(cat, Some(local), Some(remote), stageVersion);
      && Normalize(cat, merged) == merged && merged in cat.main && (merged == here || merged == there)
      && Position(cat, here) <= Position(cat, merged) && Position(cat, there) <= Position(cat, merged)
  {
    NormalizeTwice(cat, local);
    NormalizeTwice(cat, remote);
    assert IndexOf(cat.main, InitialContact) == 0;
    hide Normalize;
  }

  /** `last` is one of the stages seen, and none of them is ahead of it. */
  ghost predicate Furthest(cat: Catalog, local: Code, remotes: seq<Option<Code>>, last: Code)
  {
    && last in cat.main && Position(cat, local) <= Position(cat, last)
    && (forall k :: 0 <= k < |remotes| && remotes[k].Some? ==> Position(cat, Normalize(cat, remotes[k].value)) <= Position(cat, last))
    && (last == local || exists k :: 0 <= k < |remotes| && remotes[k].Some? && Normalize(cat, remotes[k].value) == last)
  }

  ghost predicate OnLine(cat: Catalog, remotes: seq<Option<Code>>)
  {
    forall k :: 0 <= k < |remotes| ==> remotes[k].Some? && Normalize(cat, remotes[k].value) in cat.main
  }

  /** Where a row stands after its syncs, an old alias resolved. */
  ghost function Ends(cat: Catalog, local: Code, remotes: seq<Option<Code>>, stageVersion: int): Code
  {
    Normalize(cat, Synced(cat, local, remotes, stageVersion)[|remotes|])
  }

  /** Syncs that stay on the line end at the furthest stage seen, whatever their order and the row's version. */
  lemma {:induction false} MainSyncsTakeTheMaximum(cat: Catalog, local: Code, remotes: seq<Option<Code>>, stageVersion: int)
    requires WellFormed(cat) && Normalize(cat, local) in cat.main && cat.main[0] == InitialContact && OnLine(cat, remotes)
    ensures Furthest(cat, Normalize(cat, local), remotes, Ends(cat, local, remotes, stageVersion))
    ensures remotes != [] ==> Synced(cat, local, remotes, stageVersion)[|remotes|] == Ends(cat, local, remotes, stageVersion)
  {
    hide WellFormed, Normalize, Position, MergeRemoteLibraryStage;
    if remotes != [] {
      var n := |remotes| - 1;
      MainSyncsTakeTheMaximum(cat, local, remotes[..n], stageVersion);
      var before := Synced(cat, local, remotes[..n], stageVersion)[n];
      MergeOnTheLine(cat, before, remotes[n].value, stageVersion);
      FurthestGrows(cat, Normalize(cat, local), remotes, Normalize(cat, before), MergeRemoteLibraryStage(cat, Some(before), remotes[n], stageVersion));
    }
  }

  lemma FurthestGrows(cat: Catalog, local: Code, remotes: seq<Option<Code>>, before: Code, last: Code)
    requires remotes != [] && Furthest(cat, local, remotes[..|remotes| - 1], before) && last in cat.main
    requires remotes[|remotes| - 1].Some?
    requires last == before || last == Normalize(cat, remotes[|remotes| - 1].value)
    requires Position(cat, before) <= Position(cat, last)
    requires Position(cat, Normalize(cat, remotes[|remotes| - 1].value)) <= Position(cat, last)
    ensures Furthest(cat, local, remotes, last)
  {
    hide Normalize, Position;
    var n := |remotes| - 1;
    if last == before && last != local {
      var k :| 0 <= k < n && remotes[..n][k].Some? && Normalize(cat, remotes[..n][k].value) == before;
      assert remotes[k] == remotes[..n][k];
    }
    forall k | 0 <= k < |remotes| && remotes[k].Some? ensures Position(cat, Normalize(cat, remotes[k].value)) <= Position(cat, last) {
      if k < n { assert remotes[..n][k] == remotes[k]; }
    }
  }

  /** So two rows that saw the same remote stages, in any two orders and any multiplicity, end alike. */
  lemma SyncOrderIsIrrelevant(cat: Catalog, local: Code, a: seq<Option<Code>>, b: seq<Option<Code>>, stageVersion: int)
    requires WellFormed(cat) && Normalize(cat, local) in cat.main && cat.main[0] == InitialContact && OnLine(cat, a)
    requires forall remote :: remote in a <==> remote in b
    ensures Synced(cat, local, a, stageVersion)[|a|] == Synced(cat, local, b, stageVersion)[|b|]
  {
    BothEmpty(a, b);
    if a != [] {
      SameEnds(cat, local, a, b, stageVersion);
      MainSyncsTakeTheMaximum(cat, local, a, stageVersion);
      MainSyncsTakeTheMaximum(cat, local, b, stageVersion);
    }
  }

  lemma BothEmpty(a: seq<Option<Code>>, b: seq<Option<Code>>)
    requires forall remote :: remote in a <==> remote in b
    ensures a == [] <==> b == []
  {
    if a != [] { assert a[0] in b; }
    if b != [] { assert b[0] in a; }
  }

  lemma SameEnds(cat: Catalog, local: Code, a: seq<Option<Code>>, b: seq<Option<Code>>, stageVersion: int)
    requires WellFormed(cat) && Normalize(cat, local) in cat.main && cat.main[0] == InitialContact && OnLine(cat, a)
    requires forall remote :: remote in a <==> remote in b
    ensures OnLine(cat, b) && Ends(cat, local, a, stageVersion) == Ends(cat, local, b, stageVersion)
  {
    hide Ends, WellFormed, Position, Normalize;
    forall k | 0 <= k < |b| ensures b[k].Some? && Normalize(cat, b[k].value) in cat.main {
      assert b[k] in a;
    }
    MainSyncsTakeTheMaximum(cat, local, a, stageVersion);
    MainSyncsTakeTheMaximum(cat, local, b, stageVersion);
    NotBehind(cat, local, a, b, stageVersion);
    NotBehind(cat, local, b, a, stageVersion);
    SamePlace(cat, Ends(cat, local, a, stageVersion), Ends(cat, local, b, stageVersion));
  }

  lemma SamePlace(cat: Catalog, x: Code, y: Code)
    requires x in cat.main && y in cat.main && Position(cat, x) == Position(cat, y)
    ensures x == y
  {
  }

  lemma NotBehind(cat: Catalog, local: Code, a: seq<Option<Code>>, b: seq<Option<Code>>, stageVersion: int)
    requires WellFormed(cat) && Normalize(cat, local) in cat.main && cat.main[0] == InitialContact && OnLine(cat, a) && OnLine(cat, b)
    requires forall remote :: remote in a ==> remote in b
    ensures Position(cat, Ends(cat, local, a, stageVersion)) <= Position(cat, Ends(cat, local, b, stageVersion))
  {
    MainSyncsTakeTheMaximum(cat, local, a, stageVersion);
    MainSyncsTakeTheMaximum(cat, local, b, stageVersion);
    hide Ends, WellFormed, Position;
    var last := Ends(cat, local, a, stageVersion);
    if last != Normalize(cat, local) {
      var k :| 0 <= k < |a| && a[k].Some? && Normalize(cat, a[k].value) == last;
      assert a[k] in b;
      var m :| 0 <= m < |b| && b[m] == a[k];
    }
  }
}
