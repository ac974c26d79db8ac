/**
 * The fail-closed CI planner and the script that executes its draft-impact lane.
 * Risk-rule globs and lane patterns are arbitrary predicates on paths.
 */
module CiPlan {
  import opened Options
  import opened Sorting
  import opened Text
  import opened Graph
  import opened PackageGraph

  datatype Event = PullRequest | MergeGroup | Push | WorkflowDispatch | UnknownEvent(name: string)
  datatype Readiness = Draft | ReadyForReview

  datatype Rule = Rule(matches: string -> bool, area: string, escalation: Option<string>)
  datatype Catalog = Catalog(formatVersion: int, rules: seq<Rule>)
  datatype Patterns = Patterns(documentation: string -> bool, assembled: string -> bool, source: string -> bool)

  datatype Input = Input(
    event: Event, readiness: Option<Readiness>, baseSha: Option<string>, headSha: Option<string>,
    changedPaths: Option<seq<string>>, graphDigest: Option<string>, graph: Option<seq<Package>>,
    riskCatalog: Option<Catalog>, lockfile: Option<string>, workflows: Option<string>, toolchain: Option<string>)

  datatype Reason =
    | UnavailableBase | UnavailableHead | UnavailableChangedPaths | UnavailableDependencyGraph | UnavailableRiskCatalog
    | InvalidRiskCatalog | UnavailableLockfile | UnavailableWorkflows | UnavailableToolchain | EventNotKnown
    | EmptyChangeSet | UnknownPath | Escalation(name: string) | CrossDomainChange | UnresolvedPackagePath

  datatype LaneId =
    | Static | CoverageLane | ConsumersLane | NodeCompat | PythonSdk | PythonRuntime | WindowsWine | WindowsNative
    | ElectronMacos | DraftImpact

  datatype Lane = Lane(id: LaneId, required: bool)

  datatype Plan = Plan(
    exhaustive: bool, affectedAreas: seq<string>, directPackages: seq<string>, affectedPackages: seq<string>,
    changedSources: seq<string>, reasons: seq<Reason>, lanes: seq<Lane>)

  const CATALOG_VERSION: int := 1
  const INFRA: string := "area/infra"
  const PACKAGES: string := "packages/"
  const ELECTRON: string := "packages/browser/browser-runtime-electron/"

  const EXHAUSTIVE_LANES: seq<Lane> :=
    [Lane(Static, true), Lane(CoverageLane, true), Lane(ConsumersLane, true), Lane(NodeCompat, true), Lane(PythonSdk, true),
     Lane(PythonRuntime, true), Lane(WindowsWine, true), Lane(WindowsNative, false), Lane(ElectronMacos, false)]

  // ------------------------------------------------------- ownership and reach

  predicate Owns(p: Package, path: string) {
    path == p.rel || p.rel + "/" <= path
  }

  predicate OwnsSome(p: Package, paths: seq<string>) {
    exists path :: path in paths && Owns(p, path)
  }

  /** `y` names a package that depends on `x`. */
  predicate Consumes(graph: seq<Package>, x: string, y: string) {
    exists p :: p in graph && p.short == y && x in p.deps
  }

  ghost function Consumers(graph: seq<Package>): (string, string) -> bool {
    (x, y) => Consumes(graph, x, y)
  }

  /** A direct package, or one that depends on it through any number of packages. */
  ghost predicate IsAffected(graph: seq<Package>, direct: seq<string>, y: string) {
    exists x :: x in direct && Reachable(Consumers(graph), x, y)
  }

  /** `s` holds the direct packages and every package that depends on a member. */
  ghost predicate ClosedUnderConsumers(graph: seq<Package>, direct: seq<string>, s: set<string>) {
    (forall x :: x in direct ==> x in s) && Closed(Consumers(graph), s)
  }

  /** The affected packages are the least set closed under consumers. */
  lemma AffectedIsLeast(graph: seq<Package>, direct: seq<string>, s: set<string>, y: string)
    requires ClosedUnderConsumers(graph, direct, s) && IsAffected(graph, direct, y)
    ensures y in s
  {
    var x :| x in direct && Reachable(Consumers(graph), x, y);
    ClosedHoldsReachable(Consumers(graph), s, x, y);
  }

  /** Reading the graph in another order, or with repetitions, affects the same packages. */
  lemma AffectedForgetsGraphOrder(graph: seq<Package>, other: seq<Package>, direct: seq<string>, y: string)
    requires forall p :: p in graph <==> p in other
    ensures IsAffected(graph, direct, y) <==> IsAffected(other, direct, y)
  {
    forall x, p: seq<string>
      ensures PathBetween(Consumers(graph), p, x, y) <==> PathBetween(Consumers(other), p, x, y)
    {
    }
  }

  ghost predicate Enumerates(s: seq<string>, members: set<string>) {
    Distinct(s) && Sorted(LeqText, s) && forall x :: x in s <==> x in members
  }

  /** `[...set].sort()`. */
  method SortedMembers(members: set<string>) returns (s: seq<string>)
    ensures Enumerates(s, members)
  {
    var list := Listing(members);
    TextOrderIsTotal();
    s := Sort(LeqText, list);
    SortIsOrdered(LeqText, list);
    SortKeepsElements(LeqText, list);
    SortKeepsDistinct(LeqText, list);
  }

  predicate DependsOnSome(p: Package, found: set<string>) {
    exists d :: d in p.deps && d in found
  }

  /** One sweep of `resolveReverseConsumers` over the graph. */
  method Sweep(graph: seq<Package>, found: set<string>, ghost direct: seq<string>) returns (after: set<string>)
    requires forall y :: y in found ==> IsAffected(graph, direct, y)
    ensures found <= after <= found + Shorts(graph)
    ensures forall y :: y in after ==> IsAffected(graph, direct, y)
    ensures forall p :: p in graph && DependsOnSome(p, found) ==> p.short in after
  {
    after := found;
    for i := 0 to |graph|
      invariant found <= after <= found + Shorts(graph)
      invariant forall y :: y in after ==> IsAffected(graph, direct, y)
      invariant forall j :: 0 <= j < i && DependsOnSome(graph[j], found) ==> graph[j].short in after
    {
      if DependsOnSome(graph[i], after) {
        AffectedGrows(graph, direct, after, graph[i]);
        after := after + {graph[i].short};
      }
    }
  }

  /** `resolveReverseConsumers`: sweep until nothing is added. */
  method ResolveReverseConsumers(direct: seq<string>, graph: seq<Package>) returns (affected: seq<string>)
    ensures Distinct(affected) && Sorted(LeqText, affected)
    ensures forall y :: y in affected <==> IsAffected(graph, direct, y)
  {
    var found := set x | x in direct;
    ghost var universe := found + Shorts(graph);
    DirectIsAffected(graph, direct);
    var settled := false;
    while !settled
      invariant found <= universe && forall x :: x in direct ==> x in found
      invariant forall y :: y in found ==> IsAffected(graph, direct, y)
      invariant settled ==> ClosedUnderConsumers(graph, direct, found)
      decreases !settled, universe - found
    {
      var previous := found;
      found := Sweep(graph, found, direct);
      settled := found == previous;
      if settled {
        QuietSweepIsClosed(graph, direct, found);
      }
    }
    FixpointIsAffected(graph, direct, found);
    affected := SortedMembers(found);
  }

  lemma QuietSweepIsClosed(graph: seq<Package>, direct: seq<string>, found: set<string>)
    requires forall x :: x in direct ==> x in found
    requires forall p :: p in graph && DependsOnSome(p, found) ==> p.short in found
    ensures ClosedUnderConsumers(graph, direct, found)
  {
  }

  lemma FixpointIsAffected(graph: seq<Package>, direct: seq<string>, found: set<string>)
    requires ClosedUnderConsumers(graph, direct, found) && forall y :: y in found ==> IsAffected(graph, direct, y)
    ensures forall y :: y in found <==> IsAffected(graph, direct, y)
  {
    forall y | IsAffected(graph, direct, y)
      ensures y in found
    {
      AffectedIsLeast(graph, direct, found, y);
    }
  }

  lemma DirectIsAffected(graph: seq<Package>, direct: seq<string>)
    ensures forall x :: x in direct ==> IsAffected(graph, direct, x)
  {
    forall x | x in direct
      ensures IsAffected(graph, direct, x)
    {
      ReachesItself(Consumers(graph), x);
    }
  }

  lemma AffectedGrows(graph: seq<Package>, direct: seq<string>, found: set<string>, p: Package)
    requires p in graph && DependsOnSome(p, found) && forall y :: y in found ==> IsAffected(graph, direct, y)
    ensures IsAffected(graph, direct, p.short)
  {
    var d :| d in p.deps && d in found;
    var x :| x in direct && Reachable(Consumers(graph), x, d);
    ReachesFurther(Consumers(graph), x, d, p.short);
  }

  // ------------------------------------------------------- what a plan must say

  /** The catalog the planner trusts. */
  function TrustedRules(input: Input): Option<seq<Rule>> {
    if input.riskCatalog.Some? && input.riskCatalog.value.formatVersion == CATALOG_VERSION then Some(input.riskCatalog.value.rules) else None
  }

  function Paths(input: Input): seq<string> {
    if input.changedPaths.Some? then input.changedPaths.value else []
  }

  function Nodes(input: Input): seq<Package> {
    if input.graph.Some? then input.graph.value else []
  }

  ghost predicate Matched(rules: seq<Rule>, path: string, i: int) {
    0 <= i < |rules| && rules[i].matches(path)
  }

  /** An area some changed path falls into. */
  ghost predicate AreaTouched(rules: seq<Rule>, paths: seq<string>, area: string) {
    exists path, i :: path in paths && Matched(rules, path, i) && rules[i].area == area
  }

  ghost predicate UnmatchedPath(rules: seq<Rule>, paths: seq<string>) {
    exists path :: path in paths && forall i :: !Matched(rules, path, i)
  }

  ghost predicate RuleEscalates(rules: seq<Rule>, paths: seq<string>, name: string) {
    exists path, i :: path in paths && Matched(rules, path, i) && rules[i].escalation == Some(name)
  }

  ghost predicate TouchesBoth(rules: seq<Rule>, paths: seq<string>, a: string, b: string) {
    a != b && a != INFRA && b != INFRA && AreaTouched(rules, paths, a) && AreaTouched(rules, paths, b)
  }

  ghost predicate CrossesDomains(rules: seq<Rule>, paths: seq<string>) {
    exists a, b :: TouchesBoth(rules, paths, a, b)
  }

  predicate Orphan(graph: seq<Package>, path: string) {
    PACKAGES <= path && forall p :: p in graph ==> !Owns(p, path)
  }

  predicate HasOrphan(graph: seq<Package>, paths: seq<string>) {
    exists path :: path in paths && Orphan(graph, path)
  }

  ghost predicate ReasonHolds(input: Input, r: Reason) {
    var rules, paths := TrustedRules(input), input.changedPaths;
    match r
    case UnavailableBase => input.baseSha.None?
    case UnavailableHead => input.headSha.None?
    case UnavailableChangedPaths => paths.None?
    case UnavailableDependencyGraph => input.graphDigest.None?
    case UnavailableRiskCatalog => input.riskCatalog.None?
    case InvalidRiskCatalog => input.riskCatalog.Some? && rules.None?
    case UnavailableLockfile => input.lockfile.None?
    case UnavailableWorkflows => input.workflows.None?
    case UnavailableToolchain => input.toolchain.None?
    case EventNotKnown => input.event.UnknownEvent?
    case EmptyChangeSet => rules.Some? && paths == Some([])
    case UnknownPath => rules.Some? && paths.Some? && UnmatchedPath(rules.value, paths.value)
    case Escalation(name) => rules.Some? && paths.Some? && RuleEscalates(rules.value, paths.value, name)
    case CrossDomainChange => rules.Some? && paths.Some? && CrossesDomains(rules.value, paths.value)
    case UnresolvedPackagePath => paths.Some? && input.graph.Some? && HasOrphan(input.graph.value, paths.value)
  }

  /** Anything but a draft pull request with no reason to escalate gets every lane. */
  ghost predicate MustBeExhaustive(input: Input) {
    input.event != PullRequest || input.readiness != Some(Draft) || exists r :: ReasonHolds(input, r)
  }

  ghost predicate IsDirect(input: Input, x: string) {
    exists p :: p in Nodes(input) && p.short == x && OwnsSome(p, Paths(input))
  }

  function ExhaustiveLanes(event: Event): seq<Lane> {
    seq(|EXHAUSTIVE_LANES|, i requires 0 <= i < |EXHAUSTIVE_LANES| => Lane(EXHAUSTIVE_LANES[i].id, event.MergeGroup? || EXHAUSTIVE_LANES[i].required))
  }

  function ImpactedLanes(impact: bool, docs: bool, assembled: bool, electron: bool): seq<Lane> {
    (if impact then [Lane(DraftImpact, true)] else []) +
    (if docs then [Lane(Static, true)] else []) +
    (if assembled then [Lane(ConsumersLane, true)] else []) +
    (if electron then [Lane(ElectronMacos, false)] else [])
  }

  /** The lanes of a plan, given its level, its affected packages and the changed paths. */
  function LanesFor(pats: Patterns, event: Event, exhaustive: bool, affected: seq<string>, paths: seq<string>): seq<Lane> {
    if exhaustive then ExhaustiveLanes(event)
    else ImpactedLanes(affected != [],
                       exists p :: p in paths && pats.documentation(p),
                       exists p :: p in paths && pats.assembled(p),
                       exists p :: p in paths && ELECTRON <= p)
  }

  ghost predicate HasLane(plan: Plan, id: LaneId) {
    exists i :: 0 <= i < |plan.lanes| && plan.lanes[i].id == id
  }

  /** The plan for an input, stated without the order in which `planCi` finds things. */
  ghost predicate PlanFor(pats: Patterns, input: Input, plan: Plan) {
    var paths := Paths(input);
    && (plan.exhaustive <==> MustBeExhaustive(input))
    && (forall r :: r in plan.reasons <==> ReasonHolds(input, r))
    && (forall a :: a in plan.affectedAreas <==> TrustedRules(input).Some? && AreaTouched(TrustedRules(input).value, paths, a))
    && (forall x :: x in plan.directPackages <==> IsDirect(input, x))
    && multiset(plan.directPackages) == multiset(OwningShorts(Nodes(input), paths))
    && Distinct(plan.affectedPackages)
    && (forall y :: y in plan.affectedPackages <==> IsAffected(Nodes(input), plan.directPackages, y))
    && (forall path :: path in plan.changedSources <==> path in paths && pats.source(path))
    && plan.lanes == LanesFor(pats, input.event, plan.exhaustive, plan.affectedPackages, paths)
  }

  /** The lists of a plan come sorted, and all but the direct packages without repetition. */
  ghost predicate Canonical(plan: Plan) {
    && Sorted(LeqText, plan.affectedAreas) && Distinct(plan.affectedAreas)
    && Sorted(LeqText, plan.directPackages)
    && Sorted(LeqText, plan.affectedPackages) && Distinct(plan.affectedPackages)
    && Sorted(LeqText, plan.changedSources) && Distinct(plan.changedSources)
  }

  // ------------------------------------------------------------ main theorems

  /**
   * An impacted plan made with a dependency graph leaves no change under `packages/`
   * uncovered: some package owns the path, and every owner is affected together
   * with all its transitive consumers.
   */
  lemma ImpactedPlanCoversPackages(pats: Patterns, input: Input, plan: Plan, path: string)
    requires PlanFor(pats, input, plan) && !plan.exhaustive && input.graph.Some?
    requires path in Paths(input) && PACKAGES <= path
    ensures exists p :: p in input.graph.value && Owns(p, path)
    ensures forall p, y :: p in input.graph.value && Owns(p, path) && Reachable(Consumers(input.graph.value), p.short, y) ==> y in plan.affectedPackages
  {
    assert !ReasonHolds(input, UnresolvedPackagePath);
    assert !Orphan(input.graph.value, path);
    forall p, y | p in input.graph.value && Owns(p, path) && Reachable(Consumers(input.graph.value), p.short, y)
      ensures y in plan.affectedPackages
    {
      assert OwnsSome(p, Paths(input));
      assert p.short in plan.directPackages;
      assert IsAffected(Nodes(input), plan.directPackages, y);
    }
  }

  /** Deriving the digest from the graph makes the graph available to every impacted plan. */
  lemma ImpactedPlanHasGraph(pats: Patterns, input: Input, plan: Plan)
    requires PlanFor(pats, input, plan) && !plan.exhaustive
    requires input.graphDigest.None? <==> input.graph.None?
    ensures input.graph.Some?
  {
    assert !ReasonHolds(input, UnavailableDependencyGraph);
  }

  /** Some package owns the path, and every owner is affected together with all its transitive consumers. */
  ghost predicate Covers(input: Input, plan: Plan, path: string) {
    && (exists p :: p in Nodes(input) && Owns(p, path))
    && (forall p, y :: p in Nodes(input) && Owns(p, path) && Reachable(Consumers(Nodes(input)), p.short, y) ==> y in plan.affectedPackages)
  }

  /**
   * An impacted plan covers a changed path under `packages/` exactly when it was
   * made with a dependency graph, digest or no digest.
   */
  lemma CoversIffGraph(pats: Patterns, input: Input, plan: Plan, path: string)
    requires PlanFor(pats, input, plan) && !plan.exhaustive && path in Paths(input) && PACKAGES <= path
    ensures Covers(input, plan, path) <==> input.graph.Some?
  {
    if input.graph.Some? {
      ImpactedPlanCoversPackages(pats, input, plan, path);
    }
  }

  /** Without a graph no plan, whatever its input, names a package. */
  lemma NoGraphAffectsNothing(pats: Patterns, input: Input, plan: Plan)
    requires PlanFor(pats, input, plan) && input.graph.None?
    ensures plan.directPackages == [] && plan.affectedPackages == []
  {
    assert forall x :: !IsDirect(input, x);
    SameEmptiness(plan.directPackages, []);
    SameEmptiness(plan.affectedPackages, []);
  }

  /** A draft with one changed path, one rule, a digest and no graph. */
  function GraphlessInput(path: string, rule: Rule): Input {
    Input(PullRequest, Some(Draft), Some("b"), Some("h"), Some([path]), Some("d"), None,
          Some(Catalog(CATALOG_VERSION, [rule])), Some("l"), Some("w"), Some("t"))
  }

  /** Without that tie a digest alone keeps a plan impacted that names no package for its changed path. */
  lemma DigestWithoutGraphCoversNothing(pats: Patterns, plan: Plan, path: string, rule: Rule)
    requires PACKAGES <= path && rule.matches(path) && rule.escalation.None?
    requires PlanFor(pats, GraphlessInput(path, rule), plan)
    ensures !plan.exhaustive && forall y :: y !in plan.affectedPackages
  {
    var input := GraphlessInput(path, rule);
    assert Matched([rule], path, 0);
    forall r
      ensures !ReasonHolds(input, r)
    {
      assert forall a :: AreaTouched([rule], [path], a) ==> a == rule.area;
    }
    assert forall x :: x !in plan.directPackages;
  }

  /**
   * An exhaustive plan runs every lane but the draft-impact one, all of them
   * required in a merge group; an impacted plan runs the draft-impact lane
   * exactly when a package is affected, and further lanes exactly for the paths that call for them.
   */
  lemma LanesFollowLevel(pats: Patterns, input: Input, plan: Plan, id: LaneId)
    requires PlanFor(pats, input, plan)
    ensures plan.exhaustive ==> (HasLane(plan, id) <==> id != DraftImpact)
    ensures plan.exhaustive && input.event.MergeGroup? ==> forall l :: l in plan.lanes ==> l.required
    ensures !plan.exhaustive ==> (HasLane(plan, id) <==> CalledFor(pats, plan.affectedPackages, Paths(input), id))
  {
    if plan.exhaustive {
      ExhaustiveRunsAll(input.event, plan, id);
    } else {
      ImpactedRunsCalledFor(pats, input.event, plan, Paths(input), id);
    }
  }

  ghost predicate CalledFor(pats: Patterns, affected: seq<string>, paths: seq<string>, id: LaneId) {
    match id
    case DraftImpact => affected != []
    case Static => exists p :: p in paths && pats.documentation(p)
    case ConsumersLane => exists p :: p in paths && pats.assembled(p)
    case ElectronMacos => exists p :: p in paths && ELECTRON <= p
    case _ => false
  }

  lemma ImpactedRunsCalledFor(pats: Patterns, event: Event, plan: Plan, paths: seq<string>, id: LaneId)
    requires plan.lanes == LanesFor(pats, event, false, plan.affectedPackages, paths)
    ensures HasLane(plan, id) <==> CalledFor(pats, plan.affectedPackages, paths, id)
  {
    LaneIsPresent(plan, plan.affectedPackages != [],
      exists p :: p in paths && pats.documentation(p),
      exists p :: p in paths && pats.assembled(p),
      exists p :: p in paths && ELECTRON <= p);
  }

  lemma ExhaustiveRunsAll(event: Event, plan: Plan, id: LaneId)
    requires plan.lanes == ExhaustiveLanes(event)
    ensures HasLane(plan, id) <==> id != DraftImpact
    ensures event.MergeGroup? ==> forall l :: l in plan.lanes ==> l.required
  {
    EveryLaneListed(id);
    assert |plan.lanes| == |EXHAUSTIVE_LANES| && forall i :: 0 <= i < |plan.lanes| ==> plan.lanes[i].id == EXHAUSTIVE_LANES[i].id;
  }

  lemma EveryLaneListed(id: LaneId)
    ensures (exists i :: 0 <= i < |EXHAUSTIVE_LANES| && EXHAUSTIVE_LANES[i].id == id) <==> id != DraftImpact
  {
    var l := EXHAUSTIVE_LANES;
    assert l[0].id == Static && l[1].id == CoverageLane && l[2].id == ConsumersLane && l[3].id == NodeCompat && l[4].id == PythonSdk;
    assert l[5].id == PythonRuntime && l[6].id == WindowsWine && l[7].id == WindowsNative && l[8].id == ElectronMacos;
  }

  lemma SameList(a: seq<string>, b: seq<string>)
    requires Sorted(LeqText, a) && Distinct(a) && Sorted(LeqText, b) && Distinct(b) && forall x :: x in a <==> x in b
    ensures a == b
  {
    TextOrderIsTotal();
    DistinctSameSetSameMultiset(a, b);
    OrderedPermutationIsUnique(LeqText, a, b);
  }

  /** Listing the changed paths in another order, or twice, leads to the same plan. */
  lemma PlanForgetsPathOrder(pats: Patterns, input: Input, other: Input, plan: Plan, plan': Plan)
    requires input.changedPaths.Some? && other == input.(changedPaths := other.changedPaths) && other.changedPaths.Some?
    requires forall p :: p in input.changedPaths.value <==> p in other.changedPaths.value
    requires PlanFor(pats, input, plan) && PlanFor(pats, other, plan') && Canonical(plan) && Canonical(plan')
    ensures plan.exhaustive == plan'.exhaustive && forall r :: r in plan.reasons <==> r in plan'.reasons
    ensures plan.affectedAreas == plan'.affectedAreas && plan.directPackages == plan'.directPackages
    ensures plan.affectedPackages == plan'.affectedPackages && plan.changedSources == plan'.changedSources
    ensures plan.lanes == plan'.lanes
  {
    SameReasons(input, other);
    SameDirect(input, other);
    SameAreas(input, other);
    SameList(plan.affectedAreas, plan'.affectedAreas);
    SameOwners(Nodes(input), Paths(input), Paths(other));
    TextOrderIsTotal();
    OrderedPermutationIsUnique(LeqText, plan.directPackages, plan'.directPackages);
    assert forall y :: IsAffected(Nodes(input), plan.directPackages, y) <==> IsAffected(Nodes(other), plan'.directPackages, y);
    SameList(plan.affectedPackages, plan'.affectedPackages);
    SameList(plan.changedSources, plan'.changedSources);
    LanesForgetOrder(pats, input.event, plan.exhaustive, plan.affectedPackages, Paths(input), Paths(other));
  }

  lemma SameReasons(input: Input, other: Input)
    requires input.changedPaths.Some? && other == input.(changedPaths := other.changedPaths) && other.changedPaths.Some?
    requires forall p :: p in input.changedPaths.value <==> p in other.changedPaths.value
    ensures forall r :: ReasonHolds(input, r) <==> ReasonHolds(other, r)
  {
    SameEmptiness(input.changedPaths.value, other.changedPaths.value);
    forall r
      ensures ReasonHolds(input, r) <==> ReasonHolds(other, r)
    {
      if input.changedPaths.value != [] {
        if ReasonHolds(input, r) {
          ReasonsAreMonotone(other, input, r);
        }
        if ReasonHolds(other, r) {
          ReasonsAreMonotone(input, other, r);
        }
      }
    }
  }

  lemma SameAreas(input: Input, other: Input)
    requires other == input.(changedPaths := other.changedPaths) && forall p :: p in Paths(input) <==> p in Paths(other)
    ensures TrustedRules(input) == TrustedRules(other)
    ensures TrustedRules(input).Some? ==> forall a :: AreaTouched(TrustedRules(input).value, Paths(input), a) <==> AreaTouched(TrustedRules(input).value, Paths(other), a)
  {
    if TrustedRules(input).Some? {
      SamePaths(TrustedRules(input).value, Paths(input), Paths(other));
    }
  }

  lemma {:induction false} SameOwners(graph: seq<Package>, a: seq<string>, b: seq<string>)
    requires forall p :: p in a <==> p in b
    ensures OwningShorts(graph, a) == OwningShorts(graph, b)
  {
    if graph != [] {
      SameOwners(graph[1..], a, b);
    }
  }

  lemma SameDirect(input: Input, other: Input)
    requires other == input.(changedPaths := other.changedPaths)
    requires forall p :: p in Paths(input) <==> p in Paths(other)
    ensures forall x :: IsDirect(input, x) <==> IsDirect(other, x)
  {
  }

  /** Planning fewer of the same paths never escalates, and asks for no further lane or package. */
  lemma FewerPathsNeedNoMore(pats: Patterns, big: Input, small: Input, planBig: Plan, planSmall: Plan)
    requires big.changedPaths.Some? && small == big.(changedPaths := small.changedPaths) && small.changedPaths.Some?
    requires small.changedPaths.value != [] && forall p :: p in small.changedPaths.value ==> p in big.changedPaths.value
    requires PlanFor(pats, big, planBig) && PlanFor(pats, small, planSmall) && !planBig.exhaustive
    ensures !planSmall.exhaustive
    ensures forall y :: y in planSmall.affectedPackages ==> y in planBig.affectedPackages
    ensures forall id :: HasLane(planSmall, id) ==> HasLane(planBig, id)
  {
    forall r | ReasonHolds(small, r)
      ensures ReasonHolds(big, r)
    {
      ReasonsAreMonotone(big, small, r);
    }
    forall x | x in planSmall.directPackages
      ensures x in planBig.directPackages
    {
      var p :| p in Nodes(small) && p.short == x && OwnsSome(p, Paths(small));
      assert OwnsSome(p, Paths(big));
    }
    forall y | y in planSmall.affectedPackages
      ensures y in planBig.affectedPackages
    {
      assert IsAffected(Nodes(small), planSmall.directPackages, y);
    }
    forall id | HasLane(planSmall, id)
      ensures HasLane(planBig, id)
    {
      LanesFollowLevel(pats, small, planSmall, id);
      LanesFollowLevel(pats, big, planBig, id);
      assert planSmall.affectedPackages != [] ==> planSmall.affectedPackages[0] in planBig.affectedPackages;
    }
  }

  lemma ReasonsAreMonotone(big: Input, small: Input, r: Reason)
    requires big.changedPaths.Some? && small == big.(changedPaths := small.changedPaths) && small.changedPaths.Some?
    requires small.changedPaths.value != [] && forall p :: p in small.changedPaths.value ==> p in big.changedPaths.value
    requires ReasonHolds(small, r)
    ensures ReasonHolds(big, r)
  {
    if r.CrossDomainChange? {
      var rules := TrustedRules(small).value;
      var a, b :| TouchesBoth(rules, small.changedPaths.value, a, b);
      assert TouchesBoth(rules, big.changedPaths.value, a, b);
    }
  }

  lemma LaneIsPresent(p: Plan, i: bool, d: bool, a: bool, e: bool)
    requires p.lanes == ImpactedLanes(i, d, a, e)
    ensures forall id :: HasLane(p, id) <==> (id == DraftImpact && i) || (id == Static && d) || (id == ConsumersLane && a) || (id == ElectronMacos && e)
  {
    var l := p.lanes;
    if i { assert l[0].id == DraftImpact; }
    if d { assert Lane(Static, true) in l; }
    if a { assert Lane(ConsumersLane, true) in l; }
    if e { assert Lane(ElectronMacos, false) in l; }
  }

  // ------------------------------------------------------------ the planner

  function AddUnique<T(==)>(s: seq<T>, x: T): seq<T> {
    if x in s then s else s + [x]
  }

  function PushIf(s: seq<Reason>, condition: bool, r: Reason): (t: seq<Reason>)
    ensures forall x :: x in t <==> x in s || (condition && x == r)
  {
    if condition then s + [r] else s
  }

  /** Reasons that come from an input being unavailable or unknown. */
  ghost predicate FromGuard(r: Reason) {
    !r.EmptyChangeSet? && !r.UnknownPath? && !r.Escalation? && !r.CrossDomainChange? && !r.UnresolvedPackagePath?
  }

  function EarlyGuards(input: Input): (reasons: seq<Reason>)
    ensures forall r :: r in reasons <==>
              || (r.UnavailableBase? && input.baseSha.None?)
              || (r.UnavailableHead? && input.headSha.None?)
              || (r.UnavailableChangedPaths? && input.changedPaths.None?)
              || (r.UnavailableDependencyGraph? && input.graphDigest.None?)
  {
    PushIf(PushIf(PushIf(PushIf([], input.baseSha.None?, UnavailableBase), input.headSha.None?, UnavailableHead),
                  input.changedPaths.None?, UnavailableChangedPaths), input.graphDigest.None?, UnavailableDependencyGraph)
  }

  function CatalogGuards(input: Input, reasons: seq<Reason>): (after: seq<Reason>)
    ensures forall r :: r in after <==>
              || r in reasons
              || (r.UnavailableRiskCatalog? && input.riskCatalog.None?)
              || (r.InvalidRiskCatalog? && input.riskCatalog.Some? && TrustedRules(input).None?)
  {
    if input.riskCatalog.None? then reasons + [UnavailableRiskCatalog] else PushIf(reasons, TrustedRules(input).None?, InvalidRiskCatalog)
  }

  function LateGuards(input: Input, reasons: seq<Reason>): (after: seq<Reason>)
    ensures forall r :: r in after <==>
              || r in reasons
              || (r.UnavailableLockfile? && input.lockfile.None?)
              || (r.UnavailableWorkflows? && input.workflows.None?)
              || (r.UnavailableToolchain? && input.toolchain.None?)
              || (r.EventNotKnown? && input.event.UnknownEvent?)
  {
    PushIf(PushIf(PushIf(PushIf(reasons, input.lockfile.None?, UnavailableLockfile), input.workflows.None?, UnavailableWorkflows),
                  input.toolchain.None?, UnavailableToolchain), input.event.UnknownEvent?, EventNotKnown)
  }

  /** The guards on unavailable inputs, in the order the script makes them. */
  method UnavailableReasons(input: Input) returns (reasons: seq<Reason>)
    ensures forall r :: r in reasons <==> FromGuard(r) && ReasonHolds(input, r)
  {
    reasons := LateGuards(input, CatalogGuards(input, EarlyGuards(input)));
    forall r
      ensures r in reasons <==> FromGuard(r) && ReasonHolds(input, r)
    {
    }
  }

  /** What one changed path adds to the areas and the reasons. */
  method ClassifyPath(rules: seq<Rule>, path: string, areas: set<string>, reasons: seq<Reason>) returns (areas': set<string>, reasons': seq<Reason>)
    ensures forall a :: a in areas' <==> a in areas || AreaTouched(rules, [path], a)
    ensures forall r :: r in reasons' <==> r in reasons || (r.UnknownPath? && UnmatchedPath(rules, [path])) || (r.Escalation? && RuleEscalates(rules, [path], r.name))
  {
    areas', reasons' := areas, reasons;
    var matched := false;
    for i := 0 to |rules|
      invariant matched <==> exists j :: 0 <= j < i && Matched(rules, path, j)
      invariant forall a :: a in areas' <==> a in areas || exists j :: 0 <= j < i && Matched(rules, path, j) && rules[j].area == a
      invariant forall r :: r in reasons' <==> r in reasons || (r.Escalation? && exists j :: 0 <= j < i && Matched(rules, path, j) && rules[j].escalation == Some(r.name))
    {
      assert Matched(rules, path, i) <==> rules[i].matches(path);
      if rules[i].matches(path) {
        matched := true;
        areas' := areas' + {rules[i].area};
        if rules[i].escalation.Some? {
          reasons' := AddUnique(reasons', Escalation(rules[i].escalation.value));
        }
      }
    }
    if !matched {
      reasons' := AddUnique(reasons', UnknownPath);
    }
  }

  /** The loop over the changed paths. */
  method ClassifyPaths(rules: seq<Rule>, paths: seq<string>, reasons: seq<Reason>) returns (areas: set<string>, reasons': seq<Reason>)
    ensures forall a :: a in areas <==> AreaTouched(rules, paths, a)
    ensures forall r :: r in reasons' <==> r in reasons || (r.UnknownPath? && UnmatchedPath(rules, paths)) || (r.Escalation? && RuleEscalates(rules, paths, r.name))
  {
    areas, reasons' := {}, reasons;
    for k := 0 to |paths|
      invariant forall a :: a in areas <==> AreaTouched(rules, paths[..k], a)
      invariant forall r :: r in reasons' <==> r in reasons || (r.UnknownPath? && UnmatchedPath(rules, paths[..k])) || (r.Escalation? && RuleEscalates(rules, paths[..k], r.name))
    {
      areas, reasons' := ClassifyPath(rules, paths[k], areas, reasons');
      OneMorePath(rules, paths[..k], paths[k]);
      assert paths[..k + 1] == paths[..k] + [paths[k]];
    }
    assert paths[..|paths|] == paths;
  }

  lemma OneMorePath(rules: seq<Rule>, paths: seq<string>, path: string)
    ensures forall a :: AreaTouched(rules, paths + [path], a) <==> AreaTouched(rules, paths, a) || AreaTouched(rules, [path], a)
    ensures UnmatchedPath(rules, paths + [path]) <==> UnmatchedPath(rules, paths) || UnmatchedPath(rules, [path])
    ensures forall name :: RuleEscalates(rules, paths + [path], name) <==> RuleEscalates(rules, paths, name) || RuleEscalates(rules, [path], name)
  {
    var all := paths + [path];
    assert forall p :: p in all <==> p in paths || p in [path];
  }

  /** `resolveDirectPackages`: filter, map, sort. */
  function OwningShorts(graph: seq<Package>, paths: seq<string>): (shorts: seq<string>)
    ensures forall x :: x in shorts <==> exists p :: p in graph && p.short == x && OwnsSome(p, paths)
  {
    if graph == [] then []
    else
      assert graph == [graph[0]] + graph[1..];
      (if OwnsSome(graph[0], paths) then [graph[0].short] else []) + OwningShorts(graph[1..], paths)
  }

  function FilterPaths(paths: seq<string>, keep: string -> bool): (kept: seq<string>)
    ensures forall p :: p in kept <==> p in paths && keep(p)
  {
    if paths == [] then [] else (if keep(paths[0]) then [paths[0]] else []) + FilterPaths(paths[1..], keep)
  }

  lemma {:induction false} FilterKeepsOrder(paths: seq<string>, keep: string -> bool)
    requires Sorted(LeqText, paths) && Distinct(paths)
    ensures Sorted(LeqText, FilterPaths(paths, keep)) && Distinct(FilterPaths(paths, keep))
  {
    if paths != [] {
      FilterKeepsOrder(paths[1..], keep);
      var rest := FilterPaths(paths[1..], keep);
      forall q | q in rest
        ensures LeqText(paths[0], q) && paths[0] != q
      {
        var k :| 1 <= k < |paths| && paths[k] == q;
      }
    }
  }

  lemma SamePaths(rules: seq<Rule>, a: seq<string>, b: seq<string>)
    requires forall p :: p in a <==> p in b
    ensures forall x :: AreaTouched(rules, a, x) <==> AreaTouched(rules, b, x)
    ensures UnmatchedPath(rules, a) <==> UnmatchedPath(rules, b)
    ensures forall name :: RuleEscalates(rules, a, name) <==> RuleEscalates(rules, b, name)
  {
  }

  ghost predicate TwoProducts(areas: set<string>, a: string, b: string) {
    a != b && a != INFRA && b != INFRA && a in areas && b in areas
  }

  lemma MoreThanOne(areas: set<string>)
    ensures |areas - {INFRA}| > 1 <==> exists a, b :: TwoProducts(areas, a, b)
  {
    var product := areas - {INFRA};
    if |product| > 1 {
      var a :| a in product;
      var rest := product - {a};
      assert |rest| == |product| - 1;
      var b :| b in rest;
      assert TwoProducts(areas, a, b);
    }
    if a, b :| TwoProducts(areas, a, b) {
      PairFits(product, a, b);
    }
  }

  lemma PairFits(s: set<string>, a: string, b: string)
    requires a != b && a in s && b in s
    ensures |s| > 1
  {
    var rest := s - {a};
    assert b in rest && |rest| == |s| - 1;
  }

  /** Reasons that come from classifying the changed paths one by one. */
  ghost predicate FromPaths(r: Reason) {
    r.EmptyChangeSet? || r.UnknownPath? || r.Escalation?
  }

  method PathReasons(input: Input, paths: seq<string>) returns (areas: set<string>, reasons: seq<Reason>)
    requires forall p :: p in paths <==> p in Paths(input)
    ensures forall r :: r in reasons <==> (FromGuard(r) || FromPaths(r)) && ReasonHolds(input, r)
    ensures forall a :: a in areas <==> input.changedPaths.Some? && TrustedRules(input).Some? && AreaTouched(TrustedRules(input).value, Paths(input), a)
  {
    var rules := TrustedRules(input);
    reasons := UnavailableReasons(input);
    areas := {};
    if input.changedPaths.Some? && rules.Some? {
      SameEmptiness(paths, Paths(input));
      reasons := PushIf(reasons, paths == [], EmptyChangeSet);
      areas, reasons := ClassifyPaths(rules.value, paths, reasons);
      SamePaths(rules.value, paths, Paths(input));
    }
  }

  lemma SameEmptiness(a: seq<string>, b: seq<string>)
    requires forall p :: p in a <==> p in b
    ensures a == [] <==> b == []
  {
    if a != [] { assert a[0] in b; }
    if b != [] { assert b[0] in a; }
  }

  /** Every reason to escalate, and the areas touched. */
  method CollectReasons(input: Input, paths: seq<string>) returns (areas: set<string>, reasons: seq<Reason>)
    requires forall p :: p in paths <==> p in Paths(input)
    ensures forall r :: r in reasons <==> ReasonHolds(input, r)
    ensures forall a :: a in areas <==> input.changedPaths.Some? && TrustedRules(input).Some? && AreaTouched(TrustedRules(input).value, Paths(input), a)
  {
    areas, reasons := PathReasons(input, paths);
    CrossingIsReason(input, areas);
    reasons := PushIf(reasons, |areas - {INFRA}| > 1, CrossDomainChange);
    var orphaned := input.changedPaths.Some? && input.graph.Some? && HasOrphan(Nodes(input), paths);
    OrphanIsReason(input, paths);
    reasons := PushIf(reasons, orphaned, UnresolvedPackagePath);
  }

  lemma ManyProductsCross(rules: seq<Rule>, paths: seq<string>, areas: set<string>)
    requires forall a :: a in areas <==> AreaTouched(rules, paths, a)
    ensures |areas - {INFRA}| > 1 <==> CrossesDomains(rules, paths)
  {
    MoreThanOne(areas);
    if a, b :| TwoProducts(areas, a, b) {
      assert TouchesBoth(rules, paths, a, b);
    }
    if a, b :| TouchesBoth(rules, paths, a, b) {
      assert TwoProducts(areas, a, b);
    }
  }

  lemma CrossingIsReason(input: Input, areas: set<string>)
    requires forall a :: a in areas <==> input.changedPaths.Some? && TrustedRules(input).Some? && AreaTouched(TrustedRules(input).value, Paths(input), a)
    ensures |areas - {INFRA}| > 1 <==> ReasonHolds(input, CrossDomainChange)
  {
    var rules, paths := TrustedRules(input), input.changedPaths;
    if rules.Some? && paths.Some? {
      ManyProductsCross(rules.value, paths.value, areas);
    } else {
      assert areas == {};
      assert |areas - {INFRA}| == 0;
    }
  }

  lemma OrphanIsReason(input: Input, paths: seq<string>)
    requires forall p :: p in paths <==> p in Paths(input)
    ensures (input.changedPaths.Some? && input.graph.Some? && HasOrphan(Nodes(input), paths)) <==> ReasonHolds(input, UnresolvedPackagePath)
  {
  }

  /** `planCi`, without the evidence key. */
  method PlanCi(pats: Patterns, input: Input) returns (plan: Plan)
    ensures PlanFor(pats, input, plan) && Canonical(plan)
  {
    var paths := SortedMembers(set p | p in Paths(input));
    var graph := Nodes(input);
    var areas, reasons := CollectReasons(input, paths);
    var direct := Sort(LeqText, OwningShorts(graph, paths));
    DirectPackagesAreOwners(input, paths);
    var affected := ResolveReverseConsumers(direct, graph);
    var sources := FilterPaths(paths, pats.source);
    FilterKeepsOrder(paths, pats.source);
    var exhaustive := input.event != PullRequest || input.readiness != Some(Draft) || reasons != [];
    assert exhaustive <==> MustBeExhaustive(input) by {
      if reasons != [] {
        assert reasons[0] in reasons;
      }
    }
    var lanes := LanesFor(pats, input.event, exhaustive, affected, paths);
    LanesForgetOrder(pats, input.event, exhaustive, affected, paths, Paths(input));
    var areaList := SortedMembers(areas);
    plan := Plan(exhaustive, areaList, direct, affected, sources, reasons, lanes);
  }

  lemma LanesForgetOrder(pats: Patterns, event: Event, exhaustive: bool, affected: seq<string>, a: seq<string>, b: seq<string>)
    requires forall p :: p in a <==> p in b
    ensures LanesFor(pats, event, exhaustive, affected, a) == LanesFor(pats, event, exhaustive, affected, b)
  {
  }

  lemma DirectPackagesAreOwners(input: Input, paths: seq<string>)
    requires forall p :: p in paths <==> p in Paths(input)
    ensures forall x :: x in Sort(LeqText, OwningShorts(Nodes(input), paths)) <==> IsDirect(input, x)
    ensures Sorted(LeqText, Sort(LeqText, OwningShorts(Nodes(input), paths)))
    ensures multiset(Sort(LeqText, OwningShorts(Nodes(input), paths))) == multiset(OwningShorts(Nodes(input), Paths(input)))
  {
    SameOwners(Nodes(input), paths, Paths(input));
    TextOrderIsTotal();
    SortIsOrdered(LeqText, OwningShorts(Nodes(input), paths));
    SortKeepsElements(LeqText, OwningShorts(Nodes(input), paths));
    assert forall p :: OwnsSome(p, paths) <==> OwnsSome(p, Paths(input));
  }

  // ------------------------------------------------------- executing the plan

  datatype Command = Command(directories: seq<string>, coverageIncludes: seq<string>)

  function AffectedDirectories(graph: seq<Package>, affected: set<string>): seq<string> {
    if graph == [] then []
    else (if graph[0].short in affected then [graph[0].rel] else []) + AffectedDirectories(graph[1..], affected)
  }

  /** `planCiImpact`; None is a thrown rejection. */
  function PlanCiImpact(plan: Plan, graph: seq<Package>, sourceExists: string -> bool): Option<Command> {
    if plan.exhaustive || !(exists i :: 0 <= i < |plan.lanes| && plan.lanes[i].id == DraftImpact) then None
    else
      var affected := set x | x in plan.affectedPackages;
      var directories := Sort(LeqText, AffectedDirectories(graph, affected));
      if |directories| != |affected| then None
      else Some(Command(directories, Sort(LeqText, FilterPaths(plan.changedSources, sourceExists))))
  }

  lemma {:induction false} DirectoriesOfAffected(graph: seq<Package>, affected: set<string>)
    ensures forall d :: d in AffectedDirectories(graph, affected) <==> exists p :: p in graph && p.short in affected && p.rel == d
  {
    if graph != [] {
      assert graph == [graph[0]] + graph[1..];
      DirectoriesOfAffected(graph[1..], affected);
    }
  }

  /** No affected short name is carried by two packages. */
  ghost predicate AffectedOnce(graph: seq<Package>, affected: set<string>) {
    forall i, j :: 0 <= i < j < |graph| && graph[i].short in affected ==> graph[i].short != graph[j].short
  }

  /** Affected packages that exist have at least one directory each, and just one exactly when their short names are unique. */
  lemma {:induction false} OneDirectoryEach(graph: seq<Package>, affected: set<string>)
    requires affected <= Shorts(graph)
    ensures |AffectedDirectories(graph, affected)| >= |affected|
    ensures |AffectedDirectories(graph, affected)| == |affected| <==> AffectedOnce(graph, affected)
  {
    if graph == [] {
      assert affected == {};
    } else {
      var p, rest := graph[0], graph[1..];
      assert graph == [p] + rest;
      if p.short in affected && p.short !in Shorts(rest) {
        var fewer := affected - {p.short};
        OneDirectoryEach(rest, fewer);
        SameDirectories(rest, affected, fewer, p.short);
        OnceInTail(graph, affected, fewer);
      } else {
        OneDirectoryEach(rest, affected);
        OnceInTail(graph, affected, affected);
      }
    }
  }

  lemma OnceInTail(graph: seq<Package>, affected: set<string>, fewer: set<string>)
    requires graph != [] && fewer <= affected <= fewer + {graph[0].short}
    requires graph[0].short in affected && graph[0].short !in Shorts(graph[1..]) ==> fewer == affected - {graph[0].short}
    requires !(graph[0].short in affected && graph[0].short !in Shorts(graph[1..])) ==> fewer == affected
    ensures AffectedOnce(graph, affected) <==> AffectedOnce(graph[1..], fewer) && !(graph[0].short in affected && graph[0].short in Shorts(graph[1..]))
  {
  }

  lemma {:induction false} SameDirectories(graph: seq<Package>, a: set<string>, b: set<string>, x: string)
    requires b == a - {x} && forall p :: p in graph ==> p.short != x
    ensures AffectedDirectories(graph, a) == AffectedDirectories(graph, b)
  {
    if graph != [] {
      assert graph == [graph[0]] + graph[1..];
      SameDirectories(graph[1..], a, b, x);
    }
  }

  /** Affected packages are packages of the graph. */
  lemma AffectedAreInGraph(input: Input, plan: Plan, pats: Patterns, y: string)
    requires PlanFor(pats, input, plan) && y in plan.affectedPackages
    ensures y in Shorts(Nodes(input))
  {
    var all := Shorts(Nodes(input));
    assert ClosedUnderConsumers(Nodes(input), plan.directPackages, all);
    AffectedIsLeast(Nodes(input), plan.directPackages, all, y);
  }

  /**
   * An impacted plan with the draft-impact lane is executed exactly when no
   * affected short name is carried by two packages; the command then names
   * exactly the directories of the affected packages.
   */
  lemma ImpactPlanIsExecutable(pats: Patterns, input: Input, plan: Plan, sourceExists: string -> bool)
    requires PlanFor(pats, input, plan) && !plan.exhaustive && HasLane(plan, DraftImpact)
    ensures var command := PlanCiImpact(plan, Nodes(input), sourceExists);
            && (command.Some? <==> AffectedOnce(Nodes(input), set x | x in plan.affectedPackages))
            && (DistinctShorts(Nodes(input)) ==> command.Some?)
            && (command.Some? ==> forall d :: d in command.value.directories <==> exists p :: p in Nodes(input) && p.short in plan.affectedPackages && p.rel == d)
            && (command.Some? ==> forall f :: f in command.value.coverageIncludes <==> f in Paths(input) && pats.source(f) && sourceExists(f))
            && (command.Some? ==> |command.value.directories| == |set x | x in plan.affectedPackages|)
            && (command.Some? ==> Sorted(LeqText, command.value.directories) && Sorted(LeqText, command.value.coverageIncludes))
  {
    var graph, affected := Nodes(input), set x | x in plan.affectedPackages;
    forall y | y in affected
      ensures y in Shorts(graph)
    {
      AffectedAreInGraph(input, plan, pats, y);
    }
    OneDirectoryEach(graph, affected);
    DirectoriesOfAffected(graph, affected);
    TextOrderIsTotal();
    SortKeepsElements(LeqText, AffectedDirectories(graph, affected));
    SortKeepsElements(LeqText, FilterPaths(plan.changedSources, sourceExists));
    SortIsOrdered(LeqText, AffectedDirectories(graph, affected));
    SortIsOrdered(LeqText, FilterPaths(plan.changedSources, sourceExists));
  }
}
