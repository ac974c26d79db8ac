/** What a plan says, in terms of directories, names and lanes. */
module CiPlanMeaning {
  import opened Options
  import opened Text
  import opened PackageGraph
  import opened CiPlan

  // --------------------------------------------------------------- directories

  /** The directory is the path, or what is left of it when it is cut at one of its slashes. */
  ghost predicate IsAncestor(dir: string, path: string) {
    dir == path || exists i :: 0 <= i < |path| && path[i] == '/' && path[..i] == dir
  }

  lemma OwnsMeans(p: Package, path: string)
    ensures Owns(p, path) <==> IsAncestor(p.rel, path)
  {
    var n := |p.rel|;
    if p.rel + "/" <= path {
      assert path[n] == (p.rel + "/")[n] && path[..n] == (p.rel + "/")[..n];
    }
    if i :| 0 <= i < |path| && path[i] == '/' && path[..i] == p.rel {
      assert path[..i + 1] == p.rel + "/";
    }
  }

  /** An impacted plan made with a graph leaves no changed path under `packages/` outside the packages' directories. */
  lemma ChangedPathsLieInPackages(pats: Patterns, input: Input, plan: Plan, path: string)
    requires PlanFor(pats, input, plan) && !plan.exhaustive && input.graph.Some? && input.changedPaths.Some?
    requires path in input.changedPaths.value && "packages/" <= path
    ensures exists p :: p in input.graph.value && IsAncestor(p.rel, path)
  {
    ImpactedPlanCoversPackages(pats, input, plan, path);
    var p :| p in input.graph.value && Owns(p, path);
    OwnsMeans(p, path);
  }

  /** The direct packages are exactly those in whose directory some changed path lies. */
  lemma DirectPackagesHoldChanges(pats: Patterns, input: Input, plan: Plan, x: string)
    requires PlanFor(pats, input, plan) && input.graph.Some? && input.changedPaths.Some?
    ensures x in plan.directPackages <==>
              exists p, path :: p in input.graph.value && p.short == x && path in input.changedPaths.value && IsAncestor(p.rel, path)
  {
    assert x in plan.directPackages <==> IsDirect(input, x);
    if IsDirect(input, x) {
      var p :| p in Nodes(input) && p.short == x && OwnsSome(p, Paths(input));
      var path :| path in Paths(input) && Owns(p, path);
      OwnsMeans(p, path);
    }
    if p, path :| p in input.graph.value && p.short == x && path in input.changedPaths.value && IsAncestor(p.rel, path) {
      OwnsMeans(p, path);
      assert OwnsSome(p, Paths(input));
    }
  }

  /** A change under `packages/` that lies in no package's directory is a reason to escalate. */
  lemma UnresolvedPathEscalates(pats: Patterns, input: Input, plan: Plan)
    requires PlanFor(pats, input, plan) && input.graph.Some? && input.changedPaths.Some?
    ensures UnresolvedPackagePath in plan.reasons <==>
              exists path :: path in input.changedPaths.value && "packages/" <= path && forall p :: p in input.graph.value ==> !IsAncestor(p.rel, path)
  {
    forall path
      ensures Orphan(input.graph.value, path) <==> "packages/" <= path && forall p :: p in input.graph.value ==> !IsAncestor(p.rel, path)
    {
      forall p
        ensures Owns(p, path) <==> IsAncestor(p.rel, path)
      {
        OwnsMeans(p, path);
      }
    }
    assert UnresolvedPackagePath in plan.reasons <==> ReasonHolds(input, UnresolvedPackagePath);
  }

  /** Two packages, neither in the directory of the other, are never changed by one path. */
  lemma SeparatePackagesShareNoPath(a: Package, b: Package, path: string)
    requires !IsAncestor(a.rel, b.rel) && !IsAncestor(b.rel, a.rel)
    ensures !(Owns(a, path) && Owns(b, path))
  {
    if Owns(a, path) && Owns(b, path) {
      OwnsMeans(a, path);
      OwnsMeans(b, path);
      if |a.rel| <= |b.rel| {
        AncestorsNest(a.rel, b.rel, path);
      } else {
        AncestorsNest(b.rel, a.rel, path);
      }
    }
  }

  lemma AncestorsNest(short: string, long: string, path: string)
    requires IsAncestor(short, path) && IsAncestor(long, path) && |short| <= |long|
    ensures IsAncestor(short, long)
  {
    assert path[..|short|] == short && path[..|long|] == long;
    if |short| < |long| {
      assert path[|short|] == '/';
      assert long[|short|] == '/' && long[..|short|] == short;
    }
  }

  /** `packages/shell/tool-pwsh` does not own what lies in its neighbour `packages/shell/tool-pwsh-persistent`. */
  lemma NeighbourIsNotOwned(short: string, group: string, deps: seq<string>)
    ensures !Owns(Package(short, group, "packages/shell/tool-pwsh", deps), "packages/shell/tool-pwsh-persistent/src/a.ts")
  {
    var dir, path := "packages/shell/tool-pwsh", "packages/shell/tool-pwsh-persistent/src/a.ts";
    assert |dir| == 24 && (dir + "/")[24] == '/' && path[24] == '-';
  }

  // ------------------------------------------------------------------- reasons

  /** Only format version 1 of the risk catalog is trusted. */
  lemma OtherVersionsAreInvalid(pats: Patterns, input: Input, plan: Plan)
    requires PlanFor(pats, input, plan)
    ensures InvalidRiskCatalog in plan.reasons <==> input.riskCatalog.Some? && input.riskCatalog.value.formatVersion != 1
  {
    assert InvalidRiskCatalog in plan.reasons <==> ReasonHolds(input, InvalidRiskCatalog);
  }

  /** Some changed path matches the rule. */
  ghost predicate Hit(input: Input, rule: Rule) {
    input.changedPaths.Some? && exists path :: path in input.changedPaths.value && rule.matches(path)
  }

  /** Changed paths match both rules, which name different areas, neither of them `area/infra`. */
  ghost predicate BothHit(input: Input, a: Rule, b: Rule) {
    Hit(input, a) && Hit(input, b) && a.area != b.area && a.area != "area/infra" && b.area != "area/infra"
  }

  ghost predicate TwoAreasHit(input: Input, rules: seq<Rule>) {
    exists i, j :: 0 <= i < |rules| && 0 <= j < |rules| && BothHit(input, rules[i], rules[j])
  }

  lemma AreaIsHit(input: Input, rules: seq<Rule>, area: string) returns (i: nat)
    requires input.changedPaths.Some? && AreaTouched(rules, input.changedPaths.value, area)
    ensures i < |rules| && Hit(input, rules[i]) && rules[i].area == area
  {
    var path, k :| path in input.changedPaths.value && Matched(rules, path, k) && rules[k].area == area;
    i := k;
  }

  /** Changes in two product areas escalate; `area/infra` is none. */
  lemma TwoAreasEscalate(pats: Patterns, input: Input, plan: Plan)
    requires PlanFor(pats, input, plan) && input.riskCatalog.Some? && input.riskCatalog.value.formatVersion == 1
    ensures CrossDomainChange in plan.reasons <==> TwoAreasHit(input, input.riskCatalog.value.rules)
  {
    assert CrossDomainChange in plan.reasons <==> ReasonHolds(input, CrossDomainChange);
    if input.changedPaths.Some? {
      CrossingMeans(input, input.riskCatalog.value.rules);
    }
  }

  lemma CrossingMeans(input: Input, rules: seq<Rule>)
    requires input.changedPaths.Some?
    ensures CrossesDomains(rules, input.changedPaths.value) <==> TwoAreasHit(input, rules)
  {
    if a, b :| TouchesBoth(rules, input.changedPaths.value, a, b) {
      var i := AreaIsHit(input, rules, a);
      var j := AreaIsHit(input, rules, b);
      assert BothHit(input, rules[i], rules[j]);
    }
    if i, j :| 0 <= i < |rules| && 0 <= j < |rules| && BothHit(input, rules[i], rules[j]) {
      RuleTouchesArea(input, rules, i);
      RuleTouchesArea(input, rules, j);
      assert TouchesBoth(rules, input.changedPaths.value, rules[i].area, rules[j].area);
    }
  }

  lemma RuleTouchesArea(input: Input, rules: seq<Rule>, i: nat)
    requires i < |rules| && Hit(input, rules[i])
    ensures AreaTouched(rules, input.changedPaths.value, rules[i].area)
  {
    var path :| path in input.changedPaths.value && rules[i].matches(path);
    assert Matched(rules, path, i);
  }

  // --------------------------------------------------------------------- lanes

  /** Outside merge groups the native Windows and the Electron lane are observational; all other lanes are required. */
  lemma RequiredLanes(pats: Patterns, input: Input, plan: Plan, l: Lane)
    requires PlanFor(pats, input, plan) && l in plan.lanes
    ensures plan.exhaustive ==> (l.required <==> input.event == MergeGroup || (l.id != WindowsNative && l.id != ElectronMacos))
    ensures !plan.exhaustive ==> (l.required <==> l.id != ElectronMacos)
  {
    if plan.exhaustive {
      ExhaustiveFlags(input.event, l);
    }
  }

  lemma ExhaustiveFlags(event: Event, l: Lane)
    requires l in ExhaustiveLanes(event)
    ensures l.required <==> event == MergeGroup || (l.id != WindowsNative && l.id != ElectronMacos)
  {
    var i :| 0 <= i < |EXHAUSTIVE_LANES| && l == Lane(EXHAUSTIVE_LANES[i].id, event.MergeGroup? || EXHAUSTIVE_LANES[i].required);
    assert EXHAUSTIVE_LANES[i].required <==> EXHAUSTIVE_LANES[i].id != WindowsNative && EXHAUSTIVE_LANES[i].id != ElectronMacos;
  }

  /** An impacted plan runs the Electron lane exactly for changes in the Electron runtime's directory. */
  lemma ElectronLaneFollowsItsDirectory(pats: Patterns, input: Input, plan: Plan)
    requires PlanFor(pats, input, plan) && !plan.exhaustive
    ensures HasLane(plan, ElectronMacos) <==> exists path :: path in Paths(input) && "packages/browser/browser-runtime-electron/" <= path
  {
    LanesFollowLevel(pats, input, plan, ElectronMacos);
  }
}
