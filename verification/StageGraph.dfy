/** The product graph that decides stage confirmations, and how it agrees with the lists people and facts act on. */
module StageGraph {
  import opened Prelude
  import opened Stages
  import opened StageOptions

  datatype Actor = Human | Auto

  datatype Flag = AllowHuman | AllowAuto | Forbid | RequireReason | RequireApproval

  datatype Transition =
    ForwardAdjacent | ForwardSkip | Rollback | EnterException | LeaveException | HostTerminal | Unknown

  datatype PolicyKey = On(kind: Transition) | LeaveReturnable | LeaveTerminal

  datatype Node = Node(id: Code, isMain: bool)

  datatype Graph = Graph(nodes: seq<Node>, happyPath: seq<(Code, Code)>,
                         human: map<PolicyKey, seq<Flag>>, auto: map<PolicyKey, seq<Flag>>,
                         returnable: Option<set<Code>>, terminal: Option<set<Code>>, hostOnly: Option<set<Code>>,
                         approvals: set<Code>)

  /** A file that is refused when it is loaded. */
  predicate Unavailable(g: Graph)
  {
    g.nodes == [] || g.happyPath == []
  }

  function Starts(edges: seq<(Code, Code)>): (starts: seq<Code>)
    ensures |starts| == |edges| && forall i :: 0 <= i < |edges| ==> starts[i] == edges[i].0
  {
    seq(|edges|, i requires 0 <= i < |edges| => edges[i].0)
  }

  function MainOrder(g: Graph): seq<Code>
    requires !Unavailable(g)
  {
    var starts := Starts(g.happyPath);
    var last := g.happyPath[|g.happyPath| - 1].1;
    if last in starts then starts else starts + [last]
  }

  function ReturnableSet(g: Graph): set<Code>
  {
    if g.returnable.Some? then g.returnable.value else {Paused, Disputed}
  }

  function TerminalSet(g: Graph): set<Code>
  {
    if g.terminal.Some? then g.terminal.value else {Lost, Rejected, Cancelled}
  }

  function HostOnlySet(g: Graph): set<Code>
  {
    if g.hostOnly.Some? then g.hostOnly.value else {Completed}
  }

  datatype Product = MainNode | ExceptionProduct | HostNode | UnknownProduct

  predicate IsMainNode(g: Graph, code: Code)
  {
    Node(code, true) in g.nodes
  }

  function ProductKind(g: Graph, code: Code): Product
  {
    if IsMainNode(g, code) then MainNode
    else if code == ExceptionNode then ExceptionProduct
    else if code in ReturnableSet(g) || code in TerminalSet(g) then ExceptionProduct
    else if code in HostOnlySet(g) then HostNode
    else UnknownProduct
  }

  /** The kind of a move between two normalized stages. */
  function Classify(g: Graph, start: Code, end: Code): Transition
    requires !Unavailable(g)
  {
    match (ProductKind(g, start), ProductKind(g, end))
    case (UnknownProduct, _) => Unknown
    case (_, UnknownProduct) => Unknown
    case (HostNode, _) => Unknown
    case (MainNode, HostNode) => if start == Settling && end == Completed then HostTerminal else Unknown
    case (MainNode, ExceptionProduct) => EnterException
    case (ExceptionProduct, MainNode) => LeaveException
    case (MainNode, MainNode) =>
      var from, to := IndexOf(MainOrder(g), start), IndexOf(MainOrder(g), end);
      if from < 0 || to < 0 then Unknown
      else if to == from + 1 then ForwardAdjacent
      else if to > from + 1 then ForwardSkip
      else if to < from then Rollback
      else Unknown
    case _ => Unknown
  }

  function Looked(policy: map<PolicyKey, seq<Flag>>, key: PolicyKey, otherwise: seq<Flag>): seq<Flag>
  {
    if key in policy then policy[key] else otherwise
  }

  function PolicyFlags(g: Graph, actor: Actor, kind: Transition, start: Code): seq<Flag>
  {
    var policy := if actor.Human? then g.human else g.auto;
    match kind
    case HostTerminal => if actor.Human? then [AllowHuman] else [Forbid]
    case Unknown => [Forbid]
    case LeaveException =>
      if start in TerminalSet(g) then Looked(policy, LeaveTerminal, [Forbid])
      else if actor.Auto? then
        if start in ReturnableSet(g) then Looked(policy, LeaveReturnable, [AllowAuto]) else [Forbid]
      else Looked(policy, On(LeaveException), [AllowHuman, RequireReason])
    case _ => Looked(policy, On(kind), [Forbid])
  }

  datatype Verdict = Ok | ForbiddenEdge | UnknownNode | SameStage

  datatype Decision = Decision(kind: Transition, allowed: bool, forbid: bool, requireReason: bool,
                               requireApproval: bool, flags: seq<Flag>, code: Verdict)

  predicate Grants(flags: seq<Flag>, actor: Actor)
  {
    Forbid !in flags && (if actor.Human? then AllowHuman else AllowAuto) in flags
  }

  function EvaluateStageTransition(cat: Catalog, g: Graph, from: Code, to: Code, actor: Actor): Decision
    requires !Unavailable(g)
  {
    var start, end := Normalize(cat, from), Normalize(cat, to);
    if start == end then Decision(Unknown, false, false, false, false, [], SameStage)
    else
      var kind := Classify(g, start, end);
      var flags := PolicyFlags(g, actor, kind, start);
      var requireApproval := end in g.approvals;
      var forbid := Forbid in flags || kind.Unknown?;
      var allowed := !forbid && (if actor.Human? then AllowHuman else AllowAuto) in flags;
      Decision(kind, allowed, forbid, RequireReason in flags, requireApproval,
               if requireApproval && RequireApproval !in flags then flags + [RequireApproval] else flags,
               if kind.Unknown? then UnknownNode else if allowed then Ok else ForbiddenEdge)
  }

  predicate Allowed(cat: Catalog, g: Graph, from: Code, to: Code, actor: Actor)
    requires !Unavailable(g)
  {
    EvaluateStageTransition(cat, g, from, to, actor).allowed
  }

  datatype Passage = Passed | GraphUnavailable | Refused | ReasonMissing

  /** The gate in front of every write: a refusal, or leave to go on. */
  function AssertStageTransition(cat: Catalog, g: Graph, from: Code, to: Code, actor: Actor, reason: string): Passage
  {
    if Unavailable(g) then GraphUnavailable
    else
      var decision := EvaluateStageTransition(cat, g, from, to, actor);
      if decision.code.SameStage? then Passed
      else if !decision.allowed then Refused
      else if decision.requireReason && Trim(reason) == "" then ReasonMissing
      else Passed
  }

  // ---------- what a decision says ----------

  /**
   * The parts of a decision against each other: it is `Ok` exactly when the move is allowed, a stage against itself is
   * the same stage and nothing else is; approval is asked for exactly on a move to one of the approval stages, and the
   * flags shown say so; and what is allowed carries the actor's own flag and not the prohibition.
   */
  lemma DecisionMeaning(cat: Catalog, g: Graph, from: Code, to: Code, actor: Actor)
    requires !Unavailable(g)
    ensures
      var d := EvaluateStageTransition(cat, g, from, to, actor);
      var start, end := Normalize(cat, from), Normalize(cat, to);
      && (d.code == SameStage <==> start == end)
      && (d.code == Ok <==> d.allowed)
      && (d.code == UnknownNode <==> start != end && d.kind == Unknown)
      && (d.requireApproval <==> end in g.approvals && start != end)
      && (d.requireApproval ==> RequireApproval in d.flags)
      && (d.requireReason <==> RequireReason in d.flags)
      && (d.forbid <==> start != end && (d.kind == Unknown || Forbid in d.flags))
      && (d.allowed <==> start != end && d.kind != Unknown && Forbid !in d.flags
                         && match actor { case Human => AllowHuman in d.flags case Auto => AllowAuto in d.flags })
  {
    hide Classify, PolicyFlags, Normalize;
  }

  /** The gate lets through a stage against itself, and an allowed move with the reason it asks for; the rest by cause. */
  lemma GatePassesExactlyWhen(cat: Catalog, g: Graph, from: Code, to: Code, actor: Actor, reason: string)
    ensures
      var passage := AssertStageTransition(cat, g, from, to, actor, reason);
      if g.nodes == [] || g.happyPath == [] then passage == GraphUnavailable
      else
        var d := EvaluateStageTransition(cat, g, from, to, actor);
        var same := Normalize(cat, from) == Normalize(cat, to);
        && passage != GraphUnavailable
        && (passage == Passed <==> same || (d.allowed && (d.requireReason ==> !AllSpace(reason))))
        && (passage == ReasonMissing <==> !same && d.allowed && d.requireReason && AllSpace(reason))
        && (passage == Refused <==> !same && !d.allowed)
  {
    hide Classify, PolicyFlags, Normalize, Trim, AllSpace;
    TrimIsEmpty(reason);
  }

  // ---------- a graph that is about the same line as the catalog ----------

  ghost predicate Matches(cat: Catalog, g: Graph)
  {
    && !Unavailable(g)
    && MainOrder(g) == cat.main
    && (forall code :: IsMainNode(g, code) <==> code in cat.main)
    && ReturnableSet(g) == {Paused, Disputed} && TerminalSet(g) == {Lost, Rejected, Cancelled} && HostOnlySet(g) == {Completed}
    && |cat.main| > 0 && cat.main[|cat.main| - 1] == Settling
  }

  predicate IsOrAbsent(given: Option<set<Code>>, expected: set<Code>)
  {
    given.None? || given.value == expected
  }

  /** A file whose edges are the line's own steps is about that line, its three sets of side stages named or left out. */
  lemma LineOfEdgesMatches(cat: Catalog, g: Graph)
    requires WellFormed(cat) && |cat.main| >= 2 && cat.main[|cat.main| - 1] == Settling
    requires g.nodes != [] && forall code :: Node(code, true) in g.nodes <==> code in cat.main
    requires |g.happyPath| == |cat.main| - 1
    requires forall i :: 0 <= i < |g.happyPath| ==> g.happyPath[i] == (cat.main[i], cat.main[i + 1])
    requires IsOrAbsent(g.returnable, {Paused, Disputed}) && IsOrAbsent(g.terminal, {Lost, Rejected, Cancelled})
    requires IsOrAbsent(g.hostOnly, {Completed})
    ensures Matches(cat, g)
  {
    OrderOfEdges(cat, g);
    hide MainOrder, WellFormed;
  }

  lemma OrderOfEdges(cat: Catalog, g: Graph)
    requires DuplicateFree(cat.main) && 1 <= |g.happyPath| == |cat.main| - 1 && !Unavailable(g)
    requires forall i :: 0 <= i < |g.happyPath| ==> g.happyPath[i] == (cat.main[i], cat.main[i + 1])
    ensures MainOrder(g) == cat.main
  {
    var n := |g.happyPath|;
    var starts := Starts(g.happyPath);
    forall i | 0 <= i < n ensures starts[i] == cat.main[i] && starts[i] != cat.main[n] {
      assert g.happyPath[i] == (cat.main[i], cat.main[i + 1]);
    }
    assert g.happyPath[n - 1] == (cat.main[n - 1], cat.main[n]);
    assert cat.main[n] !in starts;
    assert starts + [cat.main[n]] == cat.main;
  }

  /** The kind of graph edge that a kind of confirmation is. */
  function EdgeOf(kind: Kind, code: Code): Transition
  {
    match kind
    case Adjacent => if code.Completed? then HostTerminal else ForwardAdjacent
    case Skip => ForwardSkip
    case Return => LeaveException
    case Correct => Rollback
    case Exceptional => EnterException
  }

  lemma GraphIsThere(cat: Catalog, g: Graph)
    requires Matches(cat, g)
    ensures !Unavailable(g)
  {
  }

  lemma KindsOfProducts(cat: Catalog, g: Graph, code: Code)
    requires WellFormed(cat) && Matches(cat, g) && code != ExceptionNode
    ensures ProductKind(g, code) ==
      if code in cat.main then MainNode
      else if code.Completed? then HostNode
      else if IsSide(code) then ExceptionProduct
      else UnknownProduct
  {
    hide WellFormed, MainOrder;
    assert IsMainNode(g, code) <==> code in cat.main;
  }

  predicate IsFinalException(code: Code)
  {
    code.Lost? || code.Rejected? || code.Cancelled?
  }

  lemma MainKinds(cat: Catalog, g: Graph, start: Code, end: Code)
    requires WellFormed(cat) && Matches(cat, g) && start in cat.main && end in cat.main && start != end
    ensures
      var from, to := Position(cat, start), Position(cat, end);
      Classify(g, start, end) == if to == from + 1 then ForwardAdjacent else if to > from then ForwardSkip else Rollback
  {
    PlaceOf(cat, start);
    PlaceOf(cat, end);
    assert IsMainNode(g, start) && IsMainNode(g, end);
    assert Position(cat, start) == IndexOf(cat.main, start) && Position(cat, end) == IndexOf(cat.main, end);
    hide WellFormed, IndexOf, Position, MainOrder, IsMainNode;
  }

  lemma CompletedKind(cat: Catalog, g: Graph, start: Code)
    requires WellFormed(cat) && Matches(cat, g) && start in cat.main
    ensures Classify(g, start, Completed) == if Position(cat, start) + 1 == |cat.main| then HostTerminal else Unknown
  {
    PlaceOf(cat, start);
    KindsOfProducts(cat, g, start);
    KindsOfProducts(cat, g, Completed);
    hide WellFormed, IndexOf, Position, ProductKind, MainOrder, IsMainNode;
  }

  /** A move is offered with the kind the graph gives it; one that is not offered is unknown, or leaves a final exception. */
  ghost predicate SameKind(offered: Option<Kind>, kind: Transition, start: Code, end: Code)
  {
    match offered
    case Some(k) => kind == EdgeOf(k, end) && (k.Return? ==> IsBypass(start))
    case None => kind.Unknown? || (kind.LeaveException? && IsFinalException(start))
  }

  /** The two files classify every move between named stages alike, but for returns out of a final exception. */
  lemma KindsAgree(cat: Catalog, g: Graph, start: Code, end: Code)
    requires WellFormed(cat) && Matches(cat, g) && start != ExceptionNode && end != ExceptionNode && start != end
    requires start !in cat.aliases && end !in cat.aliases
    ensures SameKind(OfferedKind(cat, start, end), Classify(g, start, end), start, end)
  {
    hide WellFormed, OfferedKind, Classify, SameKind, Normalize, ReturnableSet, TerminalSet, HostOnlySet;
    if start in cat.main && (end in cat.main || end.Completed?) {
      LineKindsAgree(cat, g, start, end);
    } else {
      OffLineKindsAgree(cat, g, start, end);
    }
  }

  lemma LineKindsAgree(cat: Catalog, g: Graph, start: Code, end: Code)
    requires WellFormed(cat) && Matches(cat, g) && start != end && start !in cat.aliases
    requires start in cat.main && (end in cat.main || end.Completed?)
    ensures SameKind(OfferedKind(cat, start, end), Classify(g, start, end), start, end)
  {
    DistinctPlaces(cat, start, end);
    hide WellFormed, Position, Classify, ReturnableSet, TerminalSet, HostOnlySet, IndexOf;
    assert Normalize(cat, start) == start;
    if end in cat.main {
      MainKinds(cat, g, start, end);
    } else {
      CompletedKind(cat, g, start);
    }
  }

  lemma OffLineKindsAgree(cat: Catalog, g: Graph, start: Code, end: Code)
    requires WellFormed(cat) && Matches(cat, g) && start != ExceptionNode && end != ExceptionNode && start !in cat.aliases
    requires !(start in cat.main && (end in cat.main || end.Completed?))
    ensures SameKind(OfferedKind(cat, start, end), Classify(g, start, end), start, end)
  {
    OffLineKinds(cat, g, start, end);
    DistinctSides(cat, start, end);
    hide WellFormed, Position, Classify, ReturnableSet, TerminalSet, HostOnlySet, IndexOf;
    assert Normalize(cat, start) == start;
  }

  lemma DistinctSides(cat: Catalog, start: Code, end: Code)
    requires WellFormed(cat)
    ensures (start in cat.main ==> !IsSide(start)) && (end in cat.main ==> !IsSide(end))
  {
  }

  lemma DistinctPlaces(cat: Catalog, start: Code, end: Code)
    requires WellFormed(cat) && start != end
    ensures start in cat.main && end in cat.main ==> Position(cat, start) != Position(cat, end)
    ensures (start in cat.main ==> !IsSide(start)) && (end in cat.main ==> !IsSide(end))
  {
  }

  lemma OffLineKinds(cat: Catalog, g: Graph, start: Code, end: Code)
    requires WellFormed(cat) && Matches(cat, g) && start != ExceptionNode && end != ExceptionNode
    requires !(start in cat.main && (end in cat.main || end.Completed?))
    ensures Classify(g, start, end) ==
      if start in cat.main && IsSide(end) then EnterException
      else if (IsBypass(start) || IsFinalException(start)) && end in cat.main then LeaveException
      else Unknown
  {
    assert IsSide(start) ==> start !in cat.main;
    assert IsSide(end) ==> end !in cat.main;
    KindsOfProducts(cat, g, start);
    KindsOfProducts(cat, g, end);
    hide WellFormed, Matches, ProductKind, MainOrder;
  }

  // ---------- people: the list shown against the gate ----------

  /** The policy lets people make every kind of move but one: leaving a final exception. */
  predicate HumanFits(g: Graph)
  {
    && Grants(Looked(g.human, On(ForwardAdjacent), [Forbid]), Human)
    && Grants(Looked(g.human, On(ForwardSkip), [Forbid]), Human)
    && Grants(Looked(g.human, On(Rollback), [Forbid]), Human)
    && Grants(Looked(g.human, On(EnterException), [Forbid]), Human)
    && Grants(Looked(g.human, On(LeaveException), [AllowHuman, RequireReason]), Human)
    && !Grants(Looked(g.human, LeaveTerminal, [Forbid]), Human)
  }

  predicate Named(cat: Catalog, code: Code)
  {
    Normalize(cat, code) != ExceptionNode
  }

  /** The stage is offered exactly when the gate allows a person to write it. */
  predicate Agrees(cat: Catalog, g: Graph, current: Code, target: Code)
    requires !Unavailable(g)
  {
    OfferedKind(cat, current, Normalize(cat, target)).Some? <==> Allowed(cat, g, current, target, Human)
  }

  lemma Resolved(cat: Catalog, code: Code)
    requires WellFormed(cat)
    ensures Normalize(cat, code) !in cat.aliases && Normalize(cat, Normalize(cat, code)) == Normalize(cat, code)
  {
  }

  lemma AllowedByKind(cat: Catalog, g: Graph, current: Code, target: Code, actor: Actor)
    requires !Unavailable(g)
    ensures
      var start, end := Normalize(cat, current), Normalize(cat, target);
      var kind := Classify(g, start, end);
      Allowed(cat, g, current, target, actor) <==>
        (start != end && !kind.Unknown? && Grants(PolicyFlags(g, actor, kind, start), actor))
  {
    hide Classify, PolicyFlags, Normalize;
  }

  lemma HumanGrants(cat: Catalog, g: Graph, kind: Transition, start: Code)
    requires Matches(cat, g) && HumanFits(g)
    ensures Grants(PolicyFlags(g, Human, kind, start), Human)
            <==> !kind.Unknown? && !(kind.LeaveException? && IsFinalException(start))
  {
    hide MainOrder, IsMainNode;
  }

  lemma AutoGrants(cat: Catalog, g: Graph, kind: Transition, start: Code)
    requires Matches(cat, g) && AutoFits(g)
    ensures Grants(PolicyFlags(g, Auto, kind, start), Auto)
            <==> kind.ForwardAdjacent? || kind.EnterException? || (kind.LeaveException? && IsBypass(start))
  {
    hide MainOrder, IsMainNode;
  }

  /** Under a policy that fits, people are shown exactly the named stages the gate allows them. */
  lemma OptionsAreTheAllowedStages(cat: Catalog, g: Graph, current: Code, target: Code)
    requires WellFormed(cat) && Matches(cat, g) && HumanFits(g) && Named(cat, current) && Named(cat, target)
    ensures Allowed(cat, g, current, target, Human) <==> exists kind :: Offers(cat, current, Normalize(cat, target), kind)
    ensures Agrees(cat, g, current, target)
  {
    hide WellFormed, HumanFits, Normalize, Classify, PolicyFlags, Grants, OfferedKind, Offers, Allowed, ReturnableSet, TerminalSet, HostOnlySet;
    var start, end := Normalize(cat, current), Normalize(cat, target);
    forall kind ensures Offers(cat, current, end, kind) <==> OfferedKind(cat, current, end) == Some(kind) {
      OffersByPlace(cat, current, end, kind);
    }
    if OfferedKind(cat, current, end).Some? {
      assert Offers(cat, current, end, OfferedKind(cat, current, end).value);
    }
    AllowedOrNot(cat, g, current, target);
  }

  lemma AllowedOrNot(cat: Catalog, g: Graph, current: Code, target: Code)
    requires WellFormed(cat) && Matches(cat, g) && HumanFits(g) && Named(cat, current) && Named(cat, target)
    ensures Agrees(cat, g, current, target)
  {
    hide WellFormed, HumanFits, Normalize, Classify, PolicyFlags, Grants, OfferedKind, Allowed;
    hide ReturnableSet, TerminalSet, HostOnlySet, MainOrder, IsMainNode;
    var start, end := Normalize(cat, current), Normalize(cat, target);
    OfferedSame(cat, current, target);
    AllowedByKind(cat, g, current, target, Human);
    if start != end {
      HumanGrants(cat, g, Classify(g, start, end), start);
      KindsAgree(cat, g, start, end);
    } else {
      NeverToItself(cat, start);
    }
  }

  /** And the decision's kind is the one the option is listed with. */
  lemma OptionKindsMatch(cat: Catalog, g: Graph, current: Code, target: Code, kind: Kind)
    requires WellFormed(cat) && Matches(cat, g) && Named(cat, current) && Named(cat, target)
    requires Offers(cat, current, Normalize(cat, target), kind)
    ensures EvaluateStageTransition(cat, g, current, target, Human).kind == EdgeOf(kind, Normalize(cat, target))
  {
    hide WellFormed, Normalize, Classify, PolicyFlags, OfferedKind, Offers, ReturnableSet, TerminalSet, HostOnlySet;
    var start, end := Normalize(cat, current), Normalize(cat, target);
    OffersByPlace(cat, current, end, kind);
    OfferedSame(cat, current, target);
    if start == end {
      NeverToItself(cat, start);
    } else {
      KindsAgree(cat, g, start, end);
    }
  }

  lemma OfferedSame(cat: Catalog, current: Code, target: Code)
    requires WellFormed(cat)
    ensures
      var start, end := Normalize(cat, current), Normalize(cat, target);
      OfferedKind(cat, current, end) == OfferedKind(cat, start, end) && start !in cat.aliases && end !in cat.aliases
  {
    Resolved(cat, current);
    Resolved(cat, target);
    hide WellFormed, Normalize, Position;
  }

  lemma NeverToItself(cat: Catalog, start: Code)
    requires WellFormed(cat) && start !in cat.aliases
    ensures OfferedKind(cat, start, start) == None
  {
  }

  /** Exactly which policies make the list and the gate agree on every named stage, on a line of three stages or more. */
  lemma AgreementNeedsThePolicy(cat: Catalog, g: Graph)
    requires WellFormed(cat) && Matches(cat, g) && |cat.main| >= 3
    ensures (forall current, target :: Named(cat, current) && Named(cat, target) ==> Agrees(cat, g, current, target)) <==> HumanFits(g)
  {
    if HumanFits(g) {
      forall current, target | Named(cat, current) && Named(cat, target) ensures Agrees(cat, g, current, target) {
        OptionsAreTheAllowedStages(cat, g, current, target);
      }
    } else {
      var current, target := Disagreement(cat, g);
    }
  }

  /** An offered move whose edge is not granted is a disagreement. */
  lemma DisagreesOn(cat: Catalog, g: Graph, current: Code, target: Code, kind: Kind)
    requires WellFormed(cat) && Matches(cat, g) && current !in cat.aliases && target !in cat.aliases && current != target
    requires current != ExceptionNode && target != ExceptionNode && OfferedKind(cat, current, target) == Some(kind)
    requires !Grants(PolicyFlags(g, Human, EdgeOf(kind, target), current), Human)
    ensures Named(cat, current) && Named(cat, target) && !Agrees(cat, g, current, target)
  {
    hide WellFormed, Classify, PolicyFlags, Grants, OfferedKind, Allowed, ReturnableSet, TerminalSet, HostOnlySet;
    AllowedByKind(cat, g, current, target, Human);
    KindsAgree(cat, g, current, target);
  }

  lemma Disagreement(cat: Catalog, g: Graph) returns (current: Code, target: Code)
    requires WellFormed(cat) && Matches(cat, g) && |cat.main| >= 3 && !HumanFits(g)
    ensures Named(cat, current) && Named(cat, target) && !Agrees(cat, g, current, target)
  {
    var a, b, c := cat.main[0], cat.main[1], cat.main[2];
    LineStarts(cat);
    FirstOffers(cat);
    HumanFlags(cat, g, a);
    HumanFlags(cat, g, b);
    HumanFlags(cat, g, Paused);
    hide WellFormed, Position, MainOrder, Agrees, Named, IsMainNode, OfferedKind, Grants, Matches, PolicyFlags, Looked;
    if !Grants(Looked(g.human, On(ForwardAdjacent), [Forbid]), Human) {
      current, target := a, b;
      DisagreesOn(cat, g, a, b, Adjacent);
    } else if !Grants(Looked(g.human, On(ForwardSkip), [Forbid]), Human) {
      current, target := a, c;
      DisagreesOn(cat, g, a, c, Skip);
    } else if !Grants(Looked(g.human, On(Rollback), [Forbid]), Human) {
      current, target := b, a;
      DisagreesOn(cat, g, b, a, Correct);
    } else if !Grants(Looked(g.human, On(EnterException), [Forbid]), Human) {
      current, target := a, Paused;
      DisagreesOn(cat, g, a, Paused, Exceptional);
    } else if !Grants(Looked(g.human, On(LeaveException), [AllowHuman, RequireReason]), Human) {
      current, target := Paused, a;
      DisagreesOn(cat, g, Paused, a, Return);
    } else {
      current, target := Lost, a;
      FinalDisagrees(cat, g, a);
    }
  }

  lemma HumanFlags(cat: Catalog, g: Graph, start: Code)
    requires Matches(cat, g)
    ensures !Unavailable(g)
    ensures PolicyFlags(g, Human, ForwardAdjacent, start) == Looked(g.human, On(ForwardAdjacent), [Forbid])
    ensures PolicyFlags(g, Human, ForwardSkip, start) == Looked(g.human, On(ForwardSkip), [Forbid])
    ensures PolicyFlags(g, Human, Rollback, start) == Looked(g.human, On(Rollback), [Forbid])
    ensures PolicyFlags(g, Human, EnterException, start) == Looked(g.human, On(EnterException), [Forbid])
    ensures !IsFinalException(start) ==>
              PolicyFlags(g, Human, LeaveException, start) == Looked(g.human, On(LeaveException), [AllowHuman, RequireReason])
  {
    hide MainOrder, IsMainNode;
  }

  lemma FinalDisagrees(cat: Catalog, g: Graph, target: Code)
    requires WellFormed(cat) && Matches(cat, g) && target in cat.main
    requires Grants(Looked(g.human, LeaveTerminal, [Forbid]), Human)
    ensures Named(cat, Lost) && Named(cat, target) && !Agrees(cat, g, Lost, target)
  {
    assert IsSide(Lost);
    assert Normalize(cat, Lost) == Lost && Normalize(cat, target) == target;
    OffLineKinds(cat, g, Lost, target);
    AllowedByKind(cat, g, Lost, target, Human);
    hide WellFormed, Classify, MainOrder, IsMainNode, Allowed;
  }

  lemma LineStarts(cat: Catalog)
    requires WellFormed(cat) && |cat.main| >= 3
    ensures forall i :: 0 <= i < 3 ==>
      cat.main[i] in cat.main && Position(cat, cat.main[i]) == i && !IsSide(cat.main[i])
      && cat.main[i] !in cat.aliases && cat.main[i] != ExceptionNode
    ensures cat.main[0] != cat.main[1] && cat.main[0] != cat.main[2]
    ensures Paused !in cat.aliases && Lost !in cat.aliases && Paused !in cat.main && Lost !in cat.main
  {
    assert IsSide(Paused) && IsSide(Lost);
    forall i | 0 <= i < 3 ensures cat.main[i] in cat.main && Position(cat, cat.main[i]) == i { PlaceOf(cat, cat.main[i]); }
  }

  lemma FirstOffers(cat: Catalog)
    requires WellFormed(cat) && |cat.main| >= 3
    ensures OfferedKind(cat, cat.main[0], cat.main[1]) == Some(Adjacent)
    ensures OfferedKind(cat, cat.main[0], cat.main[2]) == Some(Skip)
    ensures OfferedKind(cat, cat.main[1], cat.main[0]) == Some(Correct)
    ensures OfferedKind(cat, cat.main[0], Paused) == Some(Exceptional)
    ensures OfferedKind(cat, Paused, cat.main[0]) == Some(Return)
  {
    LineStarts(cat);
    hide WellFormed, Position;
  }

  /** Over all codes, the list and the gate part exactly on the graph's own exception node. */
  lemma OnlyTheExceptionNodeDiffers(cat: Catalog, g: Graph, current: Code, target: Code)
    requires WellFormed(cat) && Matches(cat, g) && HumanFits(g)
    ensures
      var start, end := Normalize(cat, current), Normalize(cat, target);
      Agrees(cat, g, current, target) <==>
        !((start == ExceptionNode && end in cat.main) || (start in cat.main && end == ExceptionNode))
  {
    hide WellFormed, Normalize, Agrees, HumanFits, ReturnableSet, TerminalSet, HostOnlySet;
    if Named(cat, current) && Named(cat, target) {
      OptionsAreTheAllowedStages(cat, g, current, target);
    } else {
      ExceptionNodeDiffers(cat, g, current, target);
    }
  }

  lemma ExceptionNodeDiffers(cat: Catalog, g: Graph, current: Code, target: Code)
    requires WellFormed(cat) && Matches(cat, g) && HumanFits(g) && !(Named(cat, current) && Named(cat, target))
    ensures
      var start, end := Normalize(cat, current), Normalize(cat, target);
      Agrees(cat, g, current, target) <==>
        !((start == ExceptionNode && end in cat.main) || (start in cat.main && end == ExceptionNode))
  {
    hide WellFormed, Normalize, Classify, PolicyFlags, Grants, OfferedKind, Allowed, HumanFits, ReturnableSet, TerminalSet, HostOnlySet;
    var start, end := Normalize(cat, current), Normalize(cat, target);
    Resolved(cat, current);
    Resolved(cat, target);
    AllowedByKind(cat, g, current, target, Human);
    ExceptionNodeMoves(cat, g, start, end);
    HumanGrants(cat, g, Classify(g, start, end), start);
    ExceptionNodeIsNotOffered(cat, current, end);
  }

  lemma ExceptionNodeIsNotOffered(cat: Catalog, current: Code, end: Code)
    requires WellFormed(cat) && (Normalize(cat, current) == ExceptionNode || end == ExceptionNode)
    ensures OfferedKind(cat, current, end) == None
  {
  }

  lemma ExceptionNodeMoves(cat: Catalog, g: Graph, start: Code, end: Code)
    requires WellFormed(cat) && Matches(cat, g) && start !in cat.aliases && end !in cat.aliases
    requires start == ExceptionNode || end == ExceptionNode
    ensures ExceptionNode !in cat.main
    ensures Classify(g, start, end) ==
      if start == ExceptionNode && end in cat.main then LeaveException
      else if start in cat.main && end == ExceptionNode then EnterException
      else Unknown
  {
    assert ProductKind(g, ExceptionNode) == ExceptionProduct;
    if start != ExceptionNode { KindsOfProducts(cat, g, start); }
    if end != ExceptionNode { KindsOfProducts(cat, g, end); }
    hide WellFormed, ProductKind, MainOrder, IsMainNode;
  }

  // ---------- reasons ----------

  /** Where the form asks for a reason: skips, corrections and exceptions. */
  predicate NeedsReason(kind: Kind)
  {
    kind.Skip? || kind.Correct? || kind.Exceptional?
  }

  predicate ReasonsFit(g: Graph)
  {
    && RequireReason !in Looked(g.human, On(ForwardAdjacent), [Forbid])
    && RequireReason in Looked(g.human, On(ForwardSkip), [Forbid])
    && RequireReason in Looked(g.human, On(Rollback), [Forbid])
    && RequireReason in Looked(g.human, On(EnterException), [Forbid])
    && RequireReason in Looked(g.human, On(LeaveException), [AllowHuman, RequireReason])
  }

  /** The form and the gate ask for a reason on the same offered stages, except returns: there only the gate does. */
  lemma ReasonsAgreeButForReturns(cat: Catalog, g: Graph, current: Code, target: Code, kind: Kind)
    requires WellFormed(cat) && Matches(cat, g) && HumanFits(g) && ReasonsFit(g)
    requires Named(cat, current) && Named(cat, target) && Offers(cat, current, Normalize(cat, target), kind)
    ensures AssertStageTransition(cat, g, current, target, Human, "") == Passed <==> !NeedsReason(kind) && !kind.Return?
    ensures forall reason :: Trim(reason) != "" ==> AssertStageTransition(cat, g, current, target, Human, reason) == Passed
  {
    var start, end := Normalize(cat, current), Normalize(cat, target);
    hide WellFormed, Normalize, OfferedKind, Offers, HumanFits, ReasonsFit, Grants, ReturnableSet, TerminalSet, HostOnlySet, Trim;
    OptionsAreTheAllowedStages(cat, g, current, target);
    OffersByPlace(cat, current, Normalize(cat, target), kind);
    ReasonOfOffered(cat, g, current, target, kind);
    hide EvaluateStageTransition;
    BlankReason();
  }

  lemma BlankReason()
    ensures Trim("") == ""
  {
  }

  lemma ReasonOfOffered(cat: Catalog, g: Graph, current: Code, target: Code, kind: Kind)
    requires WellFormed(cat) && Matches(cat, g) && ReasonsFit(g) && Named(cat, current) && Named(cat, target)
    requires OfferedKind(cat, current, Normalize(cat, target)) == Some(kind)
    ensures EvaluateStageTransition(cat, g, current, target, Human).code != SameStage
    ensures EvaluateStageTransition(cat, g, current, target, Human).requireReason <==> NeedsReason(kind) || kind.Return?
  {
    hide WellFormed, Matches, Unavailable, Normalize, Classify, OfferedKind, PolicyFlags, ReasonsFit, NeedsReason, EdgeOf, EvaluateStageTransition;
    GraphIsThere(cat, g);
    var start, end := Normalize(cat, current), Normalize(cat, target);
    OfferedSame(cat, current, target);
    if start == end {
      NeverToItself(cat, start);
    } else {
      KindsAgree(cat, g, start, end);
      ReasonOfEdge(cat, g, start, end, kind);
      ReasonOfDecision(cat, g, current, target);
    }
  }

  lemma ReasonOfDecision(cat: Catalog, g: Graph, current: Code, target: Code)
    requires !Unavailable(g) && Normalize(cat, current) != Normalize(cat, target)
    ensures
      var start, end := Normalize(cat, current), Normalize(cat, target);
      var decision := EvaluateStageTransition(cat, g, current, target, Human);
      && decision.code != SameStage
      && (decision.requireReason <==> RequireReason in PolicyFlags(g, Human, Classify(g, start, end), start))
  {
    hide Classify, PolicyFlags;
  }

  lemma ReasonOfEdge(cat: Catalog, g: Graph, start: Code, end: Code, kind: Kind)
    requires Matches(cat, g) && ReasonsFit(g) && (kind.Return? ==> IsBypass(start))
    ensures RequireReason in PolicyFlags(g, Human, EdgeOf(kind, end), start) <==> NeedsReason(kind) || kind.Return?
  {
    hide MainOrder, IsMainNode;
  }

  // ---------- facts: the automatic targets against the gate ----------

  predicate AutoFits(g: Graph)
  {
    && Grants(Looked(g.auto, On(ForwardAdjacent), [Forbid]), Auto)
    && !Grants(Looked(g.auto, On(ForwardSkip), [Forbid]), Auto)
    && !Grants(Looked(g.auto, On(Rollback), [Forbid]), Auto)
    && Grants(Looked(g.auto, On(EnterException), [Forbid]), Auto)
    && Grants(Looked(g.auto, LeaveReturnable, [AllowAuto]), Auto)
    && !Grants(Looked(g.auto, LeaveTerminal, [Forbid]), Auto)
  }

  /** What facts may write and what the gate lets them write agree except on one edge: from settling to completed. */
  lemma AutoTargetsAreTheAllowedStages(cat: Catalog, g: Graph, current: Code, target: Code)
    requires WellFormed(cat) && Matches(cat, g) && AutoFits(g) && Named(cat, current) && Named(cat, target)
    ensures
      var start, end := Normalize(cat, current), Normalize(cat, target);
      (end in AutoTargets(cat, current) <==> Allowed(cat, g, current, target, Auto)) <==> !(start == Settling && end == Completed)
  {
    hide WellFormed, AutoFits, Normalize, Classify, PolicyFlags, Grants, OfferedKind, AutoTargets, Allowed, ReturnableSet, TerminalSet, HostOnlySet;
    var start, end := Normalize(cat, current), Normalize(cat, target);
    OfferedSame(cat, current, target);
    AllowedByKind(cat, g, current, target, Auto);
    AutoTargetKinds(cat, current, end);
    if start != end {
      KindsAgree(cat, g, start, end);
      AutoGrants(cat, g, Classify(g, start, end), start);
      OnlySettlingCompletes(cat, g, start);
    } else {
      NeverToItself(cat, start);
    }
  }

  lemma OnlySettlingCompletes(cat: Catalog, g: Graph, start: Code)
    requires WellFormed(cat) && Matches(cat, g) && start !in cat.aliases
    ensures OfferedKind(cat, start, Completed) == if start == Settling then Some(Adjacent) else None
    ensures forall end :: end != Completed && OfferedKind(cat, start, end).Some? ==> EdgeOf(OfferedKind(cat, start, end).value, end) != HostTerminal
  {
    PlaceOf(cat, Settling);
    PlaceOf(cat, start);
    assert cat.main[|cat.main| - 1] in cat.main;
    hide WellFormed, MainOrder, IsMainNode, Position;
  }

  lemma AutoTargetKinds(cat: Catalog, current: Code, end: Code)
    requires WellFormed(cat)
    ensures end in AutoTargets(cat, current) <==>
      (OfferedKind(cat, current, end).Some? && !OfferedKind(cat, current, end).value.Skip? && !OfferedKind(cat, current, end).value.Correct?)
  {
    hide Position, Normalize, Next;
    var here := Normalize(cat, current);
    if here in cat.main {
      var from := MainStage(cat, current);
      NextOnLine(cat, from);
      PlaceOf(cat, end);
      PlaceOf(cat, here);
      hide WellFormed, IndexOf;
      assert end in AutoTargets(cat, current) <==> Next(cat, here) == Some(end) || end in SIDE_EXITS;
      hide AutoTargets;
      assert end in SIDE_EXITS <==> end in EXCEPTION_CODES;
    }
  }

  // ---------- runs ----------

  datatype Attempt = Attempt(actor: Actor, target: Code, reason: string)

  /** The stage after a run of attempts; a refused attempt leaves it where it is. */
  ghost function After(cat: Catalog, g: Graph, start: Code, run: seq<Attempt>): Code
  {
    if run == [] then start
    else
      var here := After(cat, g, start, run[..|run| - 1]);
      var last := run[|run| - 1];
      if AssertStageTransition(cat, g, here, last.target, last.actor, last.reason) == Passed
      then Normalize(cat, last.target) else here
  }

  predicate NeverLeavesFinal(g: Graph)
  {
    && !Grants(Looked(g.human, LeaveTerminal, [Forbid]), Human)
    && !Grants(Looked(g.auto, LeaveTerminal, [Forbid]), Auto)
  }

  lemma FinalStays(cat: Catalog, g: Graph, here: Code, attempt: Attempt)
    requires WellFormed(cat) && Matches(cat, g)
    requires here.Completed? || (here in TerminalSet(g) && NeverLeavesFinal(g))
    requires AssertStageTransition(cat, g, here, attempt.target, attempt.actor, attempt.reason) == Passed
    ensures Normalize(cat, attempt.target) == here
  {
    hide WellFormed, Classify, MainOrder, IsMainNode, OfferedKind, Position;
    var end := Normalize(cat, attempt.target);
    Resolved(cat, attempt.target);
    NothingFromFinal(cat, here, end);
    AllowedByKind(cat, g, here, attempt.target, attempt.actor);
    if end == ExceptionNode {
      ExceptionNodeMoves(cat, g, here, end);
    } else if end != here {
      KindsAgree(cat, g, here, end);
    }
  }

  lemma NothingFromFinal(cat: Catalog, here: Code, end: Code)
    requires WellFormed(cat) && (here.Completed? || IsFinalException(here))
    ensures here !in cat.aliases && Normalize(cat, here) == here && here !in cat.main && OfferedKind(cat, here, end) == None
  {
    assert IsSide(here);
  }

  /** Completed is absorbing over every run; a final exception is, when neither policy grants leaving it. */
  lemma {:induction false} FinalIsAbsorbing(cat: Catalog, g: Graph, start: Code, run: seq<Attempt>)
    requires WellFormed(cat) && Matches(cat, g)
    requires start.Completed? || (start in TerminalSet(g) && NeverLeavesFinal(g))
    ensures After(cat, g, start, run) == start
  {
    if run != [] {
      FinalIsAbsorbing(cat, g, start, run[..|run| - 1]);
      var last := run[|run| - 1];
      if AssertStageTransition(cat, g, start, last.target, last.actor, last.reason) == Passed {
        FinalStays(cat, g, start, last);
      }
    }
  }

  /** And only then: a policy that grants it is used by a run of one attempt. */
  lemma FinalIsAbsorbingExactlyWhen(cat: Catalog, g: Graph, start: Code)
    requires WellFormed(cat) && Matches(cat, g) && start in TerminalSet(g)
    ensures (forall run :: After(cat, g, start, run) == start) <==> NeverLeavesFinal(g)
  {
    if NeverLeavesFinal(g) {
      forall run ensures After(cat, g, start, run) == start { FinalIsAbsorbing(cat, g, start, run); }
    } else {
      LeavesFinal(cat, g, start);
    }
  }

  lemma FinalIsLeft(cat: Catalog, g: Graph, start: Code, target: Code, actor: Actor)
    requires WellFormed(cat) && Matches(cat, g) && start in TerminalSet(g) && target in cat.main
    requires Grants(Looked(if actor.Human? then g.human else g.auto, LeaveTerminal, [Forbid]), actor)
    ensures Allowed(cat, g, start, target, actor) && Normalize(cat, target) == target && target != start
  {
    NothingFromFinal(cat, start, target);
    assert Normalize(cat, target) == target && target != ExceptionNode;
    OffLineKinds(cat, g, start, target);
    AllowedByKind(cat, g, start, target, actor);
    hide WellFormed, Normalize, Classify, MainOrder, IsMainNode, Allowed, Grants;
  }

  lemma LeavesFinal(cat: Catalog, g: Graph, start: Code)
    requires WellFormed(cat) && Matches(cat, g) && start in TerminalSet(g) && !NeverLeavesFinal(g)
    ensures exists run :: After(cat, g, start, run) != start
  {
    hide WellFormed, Normalize, TerminalSet, ReturnableSet, HostOnlySet, EvaluateStageTransition, Trim;
    var actor := if Grants(Looked(g.human, LeaveTerminal, [Forbid]), Human) then Human else Auto;
    var target := cat.main[0];
    FinalIsLeft(cat, g, start, target, actor);
    TrimKeeps("r");
    hide Grants, Looked;
    assert AssertStageTransition(cat, g, start, target, actor, "r") == Passed;
    hide AssertStageTransition;
    var run := [Attempt(actor, target, "r")];
    assert run[..0] == [] && After(cat, g, start, run[..0]) == start;
    assert After(cat, g, start, run) == target;
  }

  // ---------- the shipped graph ----------

  const SHIPPED_GRAPH := Graph(
    [ Node(InitialContact, true), Node(Interested, true), Node(Evaluating, true), Node(QuotePending, true),
      Node(Negotiating, true), Node(PlanPending, true), Node(Contracting, true), Node(SamplePending, true),
      Node(Shipped, true), Node(Testing, true), Node(ContentPlanning, true), Node(ContentReview, true),
      Node(PublishPending, true), Node(Published, true), Node(Settling, true), Node(ExceptionNode, false) ],
    [ (InitialContact, Interested), (Interested, Evaluating), (Evaluating, QuotePending), (QuotePending, Negotiating),
      (Negotiating, PlanPending), (PlanPending, Contracting), (Contracting, SamplePending), (SamplePending, Shipped),
      (Shipped, Testing), (Testing, ContentPlanning), (ContentPlanning, ContentReview), (ContentReview, PublishPending),
      (PublishPending, Published), (Published, Settling) ],
    map[ On(ForwardAdjacent) := [AllowHuman], On(ForwardSkip) := [AllowHuman, RequireReason],
         On(Rollback) := [AllowHuman, RequireReason], On(EnterException) := [AllowHuman, RequireReason],
         On(LeaveException) := [AllowHuman, RequireReason] ],
    map[ On(ForwardAdjacent) := [AllowAuto], On(ForwardSkip) := [Forbid], On(Rollback) := [Forbid],
         On(EnterException) := [AllowAuto], LeaveReturnable := [AllowAuto], LeaveTerminal := [Forbid] ],
    Some({Paused, Disputed}), Some({Lost, Rejected, Cancelled}), Some({Completed}),
    {PlanPending, Contracting, ContentReview, PublishPending, Settling})

  lemma ShippedOrder()
    ensures MainOrder(SHIPPED_GRAPH) == SHIPPED_LINE
  {
    ShippedLineIsALine();
    hide DuplicateFree;
    OrderOfEdges(SHIPPED_CATALOG, SHIPPED_GRAPH);
  }

  lemma ShippedNodes(code: Code)
    ensures IsMainNode(SHIPPED_GRAPH, code) <==> code in SHIPPED_LINE
  {
    ShippedLineByOrdinal(code);
    var n := Ordinal(code);
    if n < 15 { assert SHIPPED_GRAPH.nodes[n] == Node(code, true); }
  }

  lemma ShippedPoliciesFit()
    ensures HumanFits(SHIPPED_GRAPH) && ReasonsFit(SHIPPED_GRAPH) && AutoFits(SHIPPED_GRAPH) && NeverLeavesFinal(SHIPPED_GRAPH)
  {
  }

  /** The shipped graph is about the shipped line, and its policies are those the agreements need. */
  lemma ShippedGraphFits()
    ensures Matches(SHIPPED_CATALOG, SHIPPED_GRAPH)
    ensures HumanFits(SHIPPED_GRAPH) && ReasonsFit(SHIPPED_GRAPH) && AutoFits(SHIPPED_GRAPH) && NeverLeavesFinal(SHIPPED_GRAPH)
  {
    hide MainOrder, IsMainNode, HumanFits, ReasonsFit, AutoFits, NeverLeavesFinal;
    ShippedOrder();
    ShippedLineIsALine();
    forall code ensures IsMainNode(SHIPPED_GRAPH, code) <==> code in SHIPPED_LINE { ShippedNodes(code); }
    ShippedPoliciesFit();
  }

  // ---------- where list and gate part, in the shipped graph ----------

  /** A person who takes a paused row back to a stage is offered it without a reason, and the gate asks for one. */
  lemma ReturnWithoutReason()
    ensures OfferedKind(SHIPPED_CATALOG, Paused, InitialContact) == Some(Return) && !NeedsReason(Return)
    ensures AssertStageTransition(SHIPPED_CATALOG, SHIPPED_GRAPH, Paused, InitialContact, Human, "") == ReasonMissing
  {
    hide WellFormed, Matches, Unavailable, Normalize, HumanFits, ReasonsFit, AutoFits, OfferedKind, Offers, AssertStageTransition;
    ShippedCodes();
    ShippedCatalogIsWellFormed();
    ShippedGraphFits();
    GraphIsThere(SHIPPED_CATALOG, SHIPPED_GRAPH);
    OffersByPlace(SHIPPED_CATALOG, Paused, InitialContact, Return);
    assert OfferedKind(SHIPPED_CATALOG, Paused, InitialContact) == Some(Return) by { PausedReturns(); }
    OptionsAreTheAllowedStages(SHIPPED_CATALOG, SHIPPED_GRAPH, Paused, InitialContact);
    ReasonsAgreeButForReturns(SHIPPED_CATALOG, SHIPPED_GRAPH, Paused, InitialContact, Return);
    ReasonIsAllThatLacks(SHIPPED_CATALOG, SHIPPED_GRAPH, Paused, InitialContact);
  }

  lemma ReasonIsAllThatLacks(cat: Catalog, g: Graph, from: Code, to: Code)
    requires !Unavailable(g) && Allowed(cat, g, from, to, Human)
    ensures AssertStageTransition(cat, g, from, to, Human, "") == Passed || AssertStageTransition(cat, g, from, to, Human, "") == ReasonMissing
  {
    hide EvaluateStageTransition;
  }

  lemma ShippedCodes()
    ensures forall code :: code in {Paused, InitialContact, Settling, Completed, ExceptionNode} ==>
      Normalize(SHIPPED_CATALOG, code) == code
    ensures InitialContact in SHIPPED_LINE && Settling in SHIPPED_LINE && Paused !in SHIPPED_LINE && ExceptionNode !in SHIPPED_LINE
  {
    forall code | code in {Paused, InitialContact, Settling, Completed, ExceptionNode} ensures Normalize(SHIPPED_CATALOG, code) == code {
      NotAnAlias(code);
    }
    hide Normalize, Ordinal;
    ShippedLineByOrdinal(InitialContact);
    ShippedLineByOrdinal(Settling);
    ShippedLineByOrdinal(Paused);
    ShippedLineByOrdinal(ExceptionNode);
    OrdinalsOfCodes();
  }

  lemma OrdinalsOfCodes()
    ensures Ordinal(InitialContact) == 0 && Ordinal(Settling) == 14 && Ordinal(Paused) == 15 && Ordinal(ExceptionNode) == 15
  {
  }

  lemma NotAnAlias(code: Code)
    requires Ordinal(code) < 15 || IsSide(code) || code == ExceptionNode
    ensures Normalize(SHIPPED_CATALOG, code) == code
  {
    if code in SHIPPED_ALIASES { ShippedAliasesByOrdinal(code); }
  }

  lemma PausedReturns()
    ensures OfferedKind(SHIPPED_CATALOG, Paused, InitialContact) == Some(Return)
  {
    ShippedCodes();
    hide Normalize;
  }

  /** Completion is among the targets facts may write after settling, and the gate refuses it to them. */
  lemma FactsMayNotComplete()
    ensures Completed in AutoTargets(SHIPPED_CATALOG, Settling)
    ensures AssertStageTransition(SHIPPED_CATALOG, SHIPPED_GRAPH, Settling, Completed, Auto, "") == Refused
  {
    hide Normalize, WellFormed, Matches, HumanFits, ReasonsFit, AutoFits, AutoTargets, Unavailable, IndexOf;
    ShippedCodes();
    ShippedCatalogIsWellFormed();
    ShippedGraphFits();
    GraphIsThere(SHIPPED_CATALOG, SHIPPED_GRAPH);
    SettlingTargetsCompletion();
    AutoTargetsAreTheAllowedStages(SHIPPED_CATALOG, SHIPPED_GRAPH, Settling, Completed);
    NotTheSame(SHIPPED_CATALOG, SHIPPED_GRAPH, Settling, Completed, Auto);
    hide EvaluateStageTransition;
  }

  lemma SettlingTargetsCompletion()
    ensures Completed in AutoTargets(SHIPPED_CATALOG, Settling)
  {
    ShippedCodes();
    ShippedNextFollowsTheLine(14);
    ShippedLineIsALine();
    ShippedOrdinals(14);
    ShippedLineByOrdinal(SHIPPED_LINE[14]);
    hide Normalize, Next, Ordinal;
    assert SHIPPED_LINE[14] == Settling;
  }

  lemma NotTheSame(cat: Catalog, g: Graph, from: Code, to: Code, actor: Actor)
    requires !Unavailable(g) && Normalize(cat, from) != Normalize(cat, to)
    ensures !EvaluateStageTransition(cat, g, from, to, actor).code.SameStage?
  {
    hide Classify, PolicyFlags;
  }

  /** From a main stage the gate lets a person write the graph's exception node, which is never offered. */
  lemma ExceptionNodeIsWritten()
    ensures forall kind :: !Offers(SHIPPED_CATALOG, InitialContact, ExceptionNode, kind)
    ensures AssertStageTransition(SHIPPED_CATALOG, SHIPPED_GRAPH, InitialContact, ExceptionNode, Human, "why") == Passed
  {
    hide Normalize, WellFormed, Matches, HumanFits, ReasonsFit, AutoFits, Offers, OfferedKind, Unavailable;
    hide EvaluateStageTransition, Trim;
    ShippedCodes();
    ShippedCatalogIsWellFormed();
    ShippedGraphFits();
    GraphIsThere(SHIPPED_CATALOG, SHIPPED_GRAPH);
    ExceptionNodeIsNotOffered(SHIPPED_CATALOG, InitialContact, ExceptionNode);
    forall kind ensures !Offers(SHIPPED_CATALOG, InitialContact, ExceptionNode, kind) {
      OffersByPlace(SHIPPED_CATALOG, InitialContact, ExceptionNode, kind);
    }
    OnlyTheExceptionNodeDiffers(SHIPPED_CATALOG, SHIPPED_GRAPH, InitialContact, ExceptionNode);
    TrimKeeps("why");
  }

  // ---------- approvals: the stage table against the graph ----------

  /** How a stage is advanced. */
  datatype Mode =
    | Recorded | Suggested | FactDriven | Controlled | MustApprove | RuleOrHuman | LogisticsFact | MustReview
    | AfterReview | PlatformFact | FinanceFact | Bypass | Final

  function ModeOf(code: Code): Option<Mode>
  {
    match code
    case InitialContact => Some(Recorded)
    case Interested | Evaluating | ContentPlanning => Some(Suggested)
    case QuotePending => Some(FactDriven)
    case Negotiating => Some(Controlled)
    case PlanPending | Contracting => Some(MustApprove)
    case SamplePending => Some(RuleOrHuman)
    case Shipped | Testing => Some(LogisticsFact)
    case ContentReview => Some(MustReview)
    case PublishPending => Some(AfterReview)
    case Published => Some(PlatformFact)
    case Settling => Some(FinanceFact)
    case Paused | Disputed => Some(Bypass)
    case Lost | Rejected | Cancelled | Completed => Some(Final)
    case _ => None
  }

  datatype Approval = ContentApproval | SettlementApproval | StageApproval

  /** The approval that is queued before a stage is written, read off the stage table. */
  function ApprovalKindForStage(cat: Catalog, code: Code): Option<Approval>
  {
    var here := Normalize(cat, code);
    match ModeOf(here)
    case Some(MustApprove) | Some(MustReview) | Some(AfterReview) | Some(FinanceFact) =>
      if here == ContentReview || here == PublishPending then Some(ContentApproval)
      else if here == Settling then Some(SettlementApproval)
      else Some(StageApproval)
    case _ => None
  }

  /** In the shipped files the gate asks for approval exactly of the moves to a stage with an approval of its own. */
  lemma ApprovalsAgree(from: Code, to: Code, actor: Actor)
    ensures !Unavailable(SHIPPED_GRAPH)
    ensures EvaluateStageTransition(SHIPPED_CATALOG, SHIPPED_GRAPH, from, to, actor).requireApproval <==>
              && ApprovalKindForStage(SHIPPED_CATALOG, to).Some?
              && Normalize(SHIPPED_CATALOG, from) != Normalize(SHIPPED_CATALOG, to)
    ensures ApprovalKindForStage(SHIPPED_CATALOG, to).Some? <==>
              Normalize(SHIPPED_CATALOG, to) in {PlanPending, Contracting, ContentReview, PublishPending, Settling}
  {
    ShippedApprovals();
    ApprovalStages(SHIPPED_CATALOG, to);
    hide Normalize, ApprovalKindForStage, Unavailable, EvaluateStageTransition, SHIPPED_CATALOG, SHIPPED_GRAPH;
    DecisionMeaning(SHIPPED_CATALOG, SHIPPED_GRAPH, from, to, actor);
  }

  lemma ShippedApprovals()
    ensures !Unavailable(SHIPPED_GRAPH)
    ensures SHIPPED_GRAPH.approvals == {PlanPending, Contracting, ContentReview, PublishPending, Settling}
  {
  }

  lemma ApprovalStages(cat: Catalog, code: Code)
    ensures ApprovalKindForStage(cat, code).Some? <==>
              Normalize(cat, code) in {PlanPending, Contracting, ContentReview, PublishPending, Settling}
  {
    hide Normalize;
  }
}
