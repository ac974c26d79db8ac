/** Host/Client isolation across the workspace's Project Reference graph. */
module ProjectFaces {
  import opened Options
  import opened Sorting
  import opened Graph

  type Path = string

  datatype Face = Host | Client

  /** The referenced config paths, and the local config it extends, both resolved. */
  datatype Config = Config(references: seq<Path>, parent: Option<Path>)

  /** `configs` are the readable config files; `projectDirs` hold both a Host and a Client config. */
  datatype Repo = Repo(configs: map<Path, Config>, projectDirs: seq<Path>, hostBase: Path, clientBase: Path)

  // ------------------------------------------------------------ faces of configs

  const HOST_NAME: string := "tsconfig.host.json"
  const CLIENT_NAME: string := "tsconfig.client.json"

  function LastSlash(p: Path, i: nat): int
    requires i <= |p|
  {
    if i == 0 then -1 else if p[i - 1] == '/' then i - 1 else LastSlash(p, i - 1)
  }

  lemma {:induction false} LastSlashBound(p: Path, i: nat)
    requires i <= |p|
    ensures -1 <= LastSlash(p, i) < i || (i == 0 && LastSlash(p, i) == -1)
  {
    if i > 0 && p[i - 1] != '/' {
      LastSlashBound(p, i - 1);
    }
  }

  function Basename(p: Path): string {
    LastSlashBound(p, |p|);
    p[LastSlash(p, |p|) + 1..]
  }

  /** The face a config has by its own name. */
  function NamedFace(repo: Repo, p: Path): Option<Face> {
    if Basename(p) == HOST_NAME then Some(Host)
    else if Basename(p) == CLIENT_NAME then Some(Client)
    else if p == repo.hostBase then Some(Host)
    else if p == repo.clientBase then Some(Client)
    else None
  }

  /** The readable config this one extends. */
  function Parent(repo: Repo, p: Path): Option<Path> {
    if p in repo.configs && repo.configs[p].parent.Some? && repo.configs[p].parent.value in repo.configs then repo.configs[p].parent else None
  }

  /** Only a config file that exists has a parent, and only one that exists is a parent. */
  lemma ParentMeans(repo: Repo, p: Path, q: Path)
    ensures Parent(repo, p) == Some(q) <==> p in repo.configs && q in repo.configs && repo.configs[p].parent == Some(q)
  {
  }

  /** `projectFace`, with its guard against `extends` cycles. */
  function FaceFrom(repo: Repo, p: Path, seen: set<Path>): Option<Face>
    requires seen <= repo.configs.Keys
    decreases repo.configs.Keys - seen
  {
    if NamedFace(repo, p).Some? then NamedFace(repo, p)
    else if p in seen then None
    else if p !in repo.configs || Parent(repo, p).None? then None
    else FaceFrom(repo, Parent(repo, p).value, seen + {p})
  }

  function FaceOf(repo: Repo, p: Path): Option<Face> { FaceFrom(repo, p, {}) }

  /** The `k`-th config up the `extends` chain. */
  function Ancestor(repo: Repo, p: Path, k: nat): Option<Path>
    decreases k
  {
    if k == 0 then Some(p)
    else if Parent(repo, p).None? then None
    else Ancestor(repo, Parent(repo, p).value, k - 1)
  }

  /** The nearest config up the chain that is named, is `k` steps up and has face `f`. */
  ghost predicate NearestNamed(repo: Repo, p: Path, k: nat, f: Face) {
    && Ancestor(repo, p, k).Some? && NamedFace(repo, Ancestor(repo, p, k).value) == Some(f)
    && forall j: nat :: j < k ==> Ancestor(repo, p, j).Some? && NamedFace(repo, Ancestor(repo, p, j).value).None?
  }

  lemma {:induction false} FaceIsNearestNamed(repo: Repo, p: Path, seen: set<Path>, f: Face) returns (k: nat)
    requires seen <= repo.configs.Keys && FaceFrom(repo, p, seen) == Some(f)
    ensures NearestNamed(repo, p, k, f)
    decreases repo.configs.Keys - seen
  {
    if NamedFace(repo, p).Some? {
      k := 0;
    } else {
      var up := Parent(repo, p).value;
      var m := FaceIsNearestNamed(repo, up, seen + {p}, f);
      k := m + 1;
      forall j: nat | j < k
        ensures Ancestor(repo, p, j).Some? && NamedFace(repo, Ancestor(repo, p, j).value).None?
      {
        if j > 0 {
          assert Ancestor(repo, p, j) == Ancestor(repo, up, j - 1);
        }
      }
    }
  }

  lemma {:induction false} AncestorsCompose(repo: Repo, p: Path, j: nat, k: nat)
    requires Ancestor(repo, p, j).Some?
    ensures Ancestor(repo, p, j + k) == Ancestor(repo, Ancestor(repo, p, j).value, k)
    decreases j
  {
    if j > 0 {
      AncestorsCompose(repo, Parent(repo, p).value, j - 1, k);
    }
  }

  /** The chain does not come back to `p` on its way to the nearest named config. */
  lemma NoReturnBeforeNamed(repo: Repo, p: Path, j: nat, k: nat, f: Face)
    requires NearestNamed(repo, p, k, f) && 0 < j <= k
    ensures Ancestor(repo, p, j) != Some(p)
  {
    if Ancestor(repo, p, j) == Some(p) {
      AncestorsCompose(repo, p, j, k - j);
    }
  }

  lemma {:induction false} NearestNamedIsFound(repo: Repo, p: Path, seen: set<Path>, k: nat, f: Face)
    requires seen <= repo.configs.Keys && NearestNamed(repo, p, k, f)
    requires forall j: nat :: j <= k ==> Ancestor(repo, p, j).Some? && Ancestor(repo, p, j).value !in seen
    ensures FaceFrom(repo, p, seen) == Some(f)
    decreases k
  {
    if k > 0 {
      assert Ancestor(repo, p, 0) == Some(p) && NamedFace(repo, p).None?;
      assert Ancestor(repo, p, 1).Some?;
      var up := Parent(repo, p).value;
      forall j: nat | j <= k - 1
        ensures Ancestor(repo, up, j) == Ancestor(repo, p, j + 1) && Ancestor(repo, up, j) != Some(p)
      {
        NoReturnBeforeNamed(repo, p, j + 1, k, f);
      }
      assert NearestNamed(repo, up, k - 1, f);
      NearestNamedIsFound(repo, up, seen + {p}, k - 1, f);
    }
  }

  /** A config's face is that of the nearest named config up its `extends` chain, cycles included. */
  lemma FaceIffNearestNamed(repo: Repo, p: Path, f: Face)
    ensures FaceOf(repo, p) == Some(f) <==> exists k: nat :: NearestNamed(repo, p, k, f)
  {
    if FaceOf(repo, p) == Some(f) {
      var k := FaceIsNearestNamed(repo, p, {}, f);
    }
    if exists k: nat :: NearestNamed(repo, p, k, f) {
      var k: nat :| NearestNamed(repo, p, k, f);
      NearestNamedIsFound(repo, p, {}, k, f);
    }
  }

  // --------------------------------------------------------------- split roots

  predicate LongerFirst(a: Path, b: Path) { |a| >= |b| }

  predicate Contains(dir: Path, p: Path) { dir == p || dir + "/" <= p }

  function FirstContaining(dirs: seq<Path>, p: Path): Option<Path> {
    if dirs == [] then None else if Contains(dirs[0], p) then Some(dirs[0]) else FirstContaining(dirs[1..], p)
  }

  /** `containingSplitRoot` over the roots sorted by falling length. */
  function SplitRootOf(repo: Repo, p: Path): Option<Path> {
    FirstContaining(Sort(LongerFirst, repo.projectDirs), p)
  }

  lemma {:induction false} FirstContainingIsLongest(dirs: seq<Path>, p: Path)
    requires Sorted(LongerFirst, dirs)
    ensures FirstContaining(dirs, p).None? <==> forall d :: d in dirs ==> !Contains(d, p)
    ensures FirstContaining(dirs, p).Some? ==> FirstContaining(dirs, p).value in dirs && Contains(FirstContaining(dirs, p).value, p)
    ensures FirstContaining(dirs, p).Some? ==> forall d :: d in dirs && Contains(d, p) ==> |d| <= |FirstContaining(dirs, p).value|
  {
    if dirs != [] {
      assert dirs == [dirs[0]] + dirs[1..];
      assert forall j :: 0 < j < |dirs| ==> LongerFirst(dirs[0], dirs[j]);
      if !Contains(dirs[0], p) {
        FirstContainingIsLongest(dirs[1..], p);
      }
    }
  }

  /** The split root of a path is the innermost project directory around it: every other one contains it. */
  lemma SplitRootIsInnermost(repo: Repo, p: Path)
    ensures SplitRootOf(repo, p).None? <==> forall d :: d in repo.projectDirs ==> !Contains(d, p)
    ensures SplitRootOf(repo, p).Some? ==>
              var root := SplitRootOf(repo, p).value;
              root in repo.projectDirs && Contains(root, p) && forall d :: d in repo.projectDirs && Contains(d, p) ==> Contains(d, root)
  {
    SortIsOrdered(LongerFirst, repo.projectDirs);
    SortKeepsElements(LongerFirst, repo.projectDirs);
    FirstContainingIsLongest(Sort(LongerFirst, repo.projectDirs), p);
    if SplitRootOf(repo, p).Some? {
      var root := SplitRootOf(repo, p).value;
      forall d | d in repo.projectDirs && Contains(d, p)
        ensures Contains(d, root)
      {
        NestedDirs(d, root, p);
      }
    }
  }

  lemma NestedDirs(d: Path, root: Path, p: Path)
    requires Contains(d, p) && Contains(root, p) && |d| <= |root|
    ensures Contains(d, root)
  {
    assert p[..|d|] == d && p[..|root|] == root;
    if |d| < |root| {
      assert p[|d|] == '/';
      assert root[..|d|] == d && root[|d|] == '/';
      assert root[..|d| + 1] == d + "/";
    }
  }

  // ------------------------------------------------------------- reference edges

  function Leaf(root: Path, f: Face): Path {
    root + "/" + if f.Host? then HOST_NAME else CLIENT_NAME
  }

  /** A reference stays outside split projects, or enters one through the leaf of its source's face. */
  predicate Conforms(repo: Repo, source: Path, target: Path) {
    var root := SplitRootOf(repo, target);
    root.None? || (FaceOf(repo, source).Some? && target == Leaf(root.value, FaceOf(repo, source).value))
  }

  ghost predicate References(repo: Repo, a: Path, b: Path) {
    a in repo.configs && b in repo.configs && b in repo.configs[a].references
  }

  ghost function ConformingEdge(repo: Repo): (Path, Path) -> bool {
    (a, b) => References(repo, a, b) && Conforms(repo, a, b)
  }

  ghost function AnyEdge(repo: Repo): (Path, Path) -> bool {
    (a, b) => References(repo, a, b)
  }

  /** A readable config reached from a start along the edges. */
  ghost predicate Reached(repo: Repo, edge: (Path, Path) -> bool, starts: seq<Path>, c: Path) {
    exists s :: s in starts && s in repo.configs && Reachable(edge, s, c)
  }

  /** The `index`-th reference of a config. */
  datatype Violation = Violation(config: Path, index: nat)

  ghost predicate WrongEdge(repo: Repo, v: Violation) {
    v.config in repo.configs && v.index < |repo.configs[v.config].references| && !Conforms(repo, v.config, repo.configs[v.config].references[v.index])
  }

  /** The inner loop: one config's references, split into violations and targets to follow. */
  method ScanReferences(repo: Repo, c: Path) returns (wrong: seq<Violation>, follow: seq<Path>)
    requires c in repo.configs
    ensures Distinct(wrong) && forall v :: v in wrong <==> v.config == c && WrongEdge(repo, v)
    ensures forall t :: t in follow <==> t in repo.configs[c].references && Conforms(repo, c, t)
  {
    var refs := repo.configs[c].references;
    wrong, follow := [], [];
    for i := 0 to |refs|
      invariant Distinct(wrong) && forall v :: v in wrong <==> v.config == c && v.index < i && WrongEdge(repo, v)
      invariant forall t :: t in follow <==> t in refs[..i] && Conforms(repo, c, t)
    {
      assert refs[..i + 1] == refs[..i] + [refs[i]];
      if Conforms(repo, c, refs[i]) {
        follow := follow + [refs[i]];
      } else {
        assert Violation(c, i) !in wrong;
        wrong := wrong + [Violation(c, i)];
      }
    }
    assert refs[..|refs|] == refs;
  }

  /** What the worklist keeps: it has visited only reached configs, noted exactly their wrong edges, and owes exactly the pending rest. */
  ghost predicate Progress(repo: Repo, starts: seq<Path>, pending: seq<Path>, visited: set<Path>, violations: seq<Violation>) {
    && visited <= repo.configs.Keys
    && (forall c :: c in visited || (c in pending && c in repo.configs) ==> Reached(repo, ConformingEdge(repo), starts, c))
    && (forall s :: s in starts && s in repo.configs ==> s in visited || s in pending)
    && (forall a, b :: a in visited && References(repo, a, b) && Conforms(repo, a, b) ==> b in visited || b in pending)
    && Distinct(violations) && (forall v :: v in violations <==> v.config in visited && WrongEdge(repo, v))
  }

  lemma VisitKeepsProgress(repo: Repo, starts: seq<Path>, pending: seq<Path>, visited: set<Path>, violations: seq<Violation>,
                           c: Path, wrong: seq<Violation>, follow: seq<Path>)
    requires Progress(repo, starts, pending + [c], visited, violations) && c in repo.configs && c !in visited
    requires Distinct(wrong) && forall v :: v in wrong <==> v.config == c && WrongEdge(repo, v)
    requires forall t :: t in follow <==> t in repo.configs[c].references && Conforms(repo, c, t)
    ensures Progress(repo, starts, pending + follow, visited + {c}, violations + wrong)
  {
    assert forall x :: x in pending + [c] <==> x in pending || x == c;
    assert forall x :: x in pending + follow <==> x in pending || x in follow;
    TargetsAreReached(repo, starts, c, follow);
    DistinctConcat(violations, wrong);
  }

  lemma TargetsAreReached(repo: Repo, starts: seq<Path>, c: Path, follow: seq<Path>)
    requires c in repo.configs && Reached(repo, ConformingEdge(repo), starts, c)
    requires forall t :: t in follow <==> t in repo.configs[c].references && Conforms(repo, c, t)
    ensures forall t :: t in follow && t in repo.configs ==> Reached(repo, ConformingEdge(repo), starts, t)
  {
    var e := ConformingEdge(repo);
    var s :| s in starts && s in repo.configs && Reachable(e, s, c);
    forall t | t in follow && t in repo.configs
      ensures Reached(repo, e, starts, t)
    {
      ReachesFurther(e, s, c, t);
    }
  }

  lemma SkipKeepsProgress(repo: Repo, starts: seq<Path>, pending: seq<Path>, visited: set<Path>, violations: seq<Violation>, c: Path)
    requires Progress(repo, starts, pending + [c], visited, violations) && (c in visited || c !in repo.configs)
    ensures Progress(repo, starts, pending, visited, violations)
  {
    assert forall x :: x in pending + [c] <==> x in pending || x == c;
  }

  /** `collectProjectReferenceFaceViolations`: a stack of configs still to visit. */
  method CollectViolations(repo: Repo, starts: seq<Path>) returns (violations: seq<Violation>)
    ensures Distinct(violations)
    ensures forall v: Violation :: v in violations <==> Reached(repo, ConformingEdge(repo), starts, v.config) && WrongEdge(repo, v)
  {
    violations := [];
    var pending, visited := starts, {};
    forall s | s in starts && s in repo.configs
      ensures Reached(repo, ConformingEdge(repo), starts, s)
    {
      ReachesItself(ConformingEdge(repo), s);
    }
    while pending != []
      invariant Progress(repo, starts, pending, visited, violations)
      decreases repo.configs.Keys - visited, |pending|
    {
      var c := pending[|pending| - 1];
      var rest := pending[..|pending| - 1];
      assert pending == rest + [c];
      if c in visited || c !in repo.configs {
        SkipKeepsProgress(repo, starts, rest, visited, violations, c);
        pending := rest;
      } else {
        var wrong, follow := ScanReferences(repo, c);
        VisitKeepsProgress(repo, starts, rest, visited, violations, c, wrong, follow);
        pending, visited, violations := rest + follow, visited + {c}, violations + wrong;
      }
    }
    FinishedVisitsAll(repo, starts, visited, violations);
  }

  lemma FinishedVisitsAll(repo: Repo, starts: seq<Path>, visited: set<Path>, violations: seq<Violation>)
    requires Progress(repo, starts, [], visited, violations)
    ensures forall c :: c in visited <==> Reached(repo, ConformingEdge(repo), starts, c)
  {
    var e := ConformingEdge(repo);
    assert Closed(e, visited);
    forall c | Reached(repo, e, starts, c)
      ensures c in visited
    {
      var s :| s in starts && s in repo.configs && Reachable(e, s, c);
      ClosedHoldsReachable(e, visited, s, c);
    }
  }

  /** If no conforming walk meets a wrong edge, then no walk at all does. */
  lemma {:induction false} CleanReportMeansCleanGraph(repo: Repo, starts: seq<Path>, path: seq<Path>, c: Path)
    requires path != [] && path[0] in starts && path[0] in repo.configs && PathBetween(AnyEdge(repo), path, path[0], c)
    requires forall v: Violation :: !(Reached(repo, ConformingEdge(repo), starts, v.config) && WrongEdge(repo, v))
    ensures c in repo.configs && Reached(repo, ConformingEdge(repo), starts, c)
    ensures forall i :: 0 <= i < |repo.configs[c].references| ==> Conforms(repo, c, repo.configs[c].references[i])
    decreases |path|
  {
    var e := ConformingEdge(repo);
    if |path| == 1 {
      ReachesItself(e, c);
    } else {
      var front := path[..|path| - 1];
      var b := front[|front| - 1];
      assert PathBetween(AnyEdge(repo), front, front[0], b) by {
        assert forall i :: 0 <= i < |front| - 1 ==> AnyEdge(repo)(path[i], path[i + 1]);
      }
      CleanReportMeansCleanGraph(repo, starts, front, b);
      assert AnyEdge(repo)(path[|path| - 2], path[|path| - 1]);
      var i :| 0 <= i < |repo.configs[b].references| && repo.configs[b].references[i] == c;
      assert Conforms(repo, b, c);
      var s :| s in starts && s in repo.configs && Reachable(e, s, b);
      ReachesFurther(e, s, b, c);
    }
    forall i | 0 <= i < |repo.configs[c].references|
      ensures Conforms(repo, c, repo.configs[c].references[i])
    {
      assert !WrongEdge(repo, Violation(c, i));
    }
  }

  // ------------------------------------------------- the face of the aggregate

  /** Every reference of the config that enters a split root does so through the leaf of the face. */
  ghost predicate EntersThrough(repo: Repo, c: Path, f: Face)
    requires c in repo.configs
  {
    forall i :: 0 <= i < |repo.configs[c].references| && SplitRootOf(repo, repo.configs[c].references[i]).Some? ==>
      repo.configs[c].references[i] == Leaf(SplitRootOf(repo, repo.configs[c].references[i]).value, f)
  }

  ghost predicate EntersSome(repo: Repo, c: Path)
    requires c in repo.configs
  {
    exists i :: 0 <= i < |repo.configs[c].references| && SplitRootOf(repo, repo.configs[c].references[i]).Some?
  }

  lemma LeafTellsFace(root: Path, f: Face, g: Face)
    requires Leaf(root, f) == Leaf(root, g)
    ensures f == g
  {
    assert |HOST_NAME| != |CLIENT_NAME|;
  }

  lemma CleanConfigEnters(repo: Repo, c: Path, f: Face)
    requires c in repo.configs && forall i :: 0 <= i < |repo.configs[c].references| ==> Conforms(repo, c, repo.configs[c].references[i])
    ensures EntersThrough(repo, c, f) <==> (EntersSome(repo, c) ==> FaceOf(repo, c) == Some(f))
  {
    if EntersSome(repo, c) && EntersThrough(repo, c, f) {
      var i :| 0 <= i < |repo.configs[c].references| && SplitRootOf(repo, repo.configs[c].references[i]).Some?;
      LeafTellsFace(SplitRootOf(repo, repo.configs[c].references[i]).value, FaceOf(repo, c).value, f);
    }
  }

  /**
   * The traversal from an aggregate enters split roots only through leaves of
   * the aggregate's face, as the check is documented to make sure, exactly when
   * every config met on the way that enters one has that face itself.
   */
  lemma CleanReportKeepsFaceIff(repo: Repo, starts: seq<Path>, s: Path, f: Face)
    requires s in starts && s in repo.configs
    requires forall v: Violation :: !(Reached(repo, ConformingEdge(repo), starts, v.config) && WrongEdge(repo, v))
    ensures (forall c :: c in repo.configs && Reachable(AnyEdge(repo), s, c) ==> EntersThrough(repo, c, f)) <==>
            (forall c :: c in repo.configs && Reachable(AnyEdge(repo), s, c) && EntersSome(repo, c) ==> FaceOf(repo, c) == Some(f))
  {
    forall c | c in repo.configs && Reachable(AnyEdge(repo), s, c)
      ensures EntersThrough(repo, c, f) <==> (EntersSome(repo, c) ==> FaceOf(repo, c) == Some(f))
    {
      var p :| PathBetween(AnyEdge(repo), p, s, c);
      CleanReportMeansCleanGraph(repo, starts, p, c);
      CleanConfigEnters(repo, c, f);
    }
  }

  lemma {:induction false} NoSlash(p: Path, i: nat)
    requires i <= |p| && '/' !in p
    ensures LastSlash(p, i) == -1
  {
    if i > 0 {
      NoSlash(p, i - 1);
    }
  }

  /** The Host aggregate refers to a config `p` outside split roots, which extends the Client base and refers to the Client leaf of `q`. */
  function Crossing(): Repo {
    Repo(map[HOST_NAME := Config(["p"], None), "p" := Config([Leaf("q", Client)], Some("c")), "c" := Config([], None)], ["q"], "h", "c")
  }

  lemma PlainBasename(p: Path)
    requires '/' !in p
    ensures Basename(p) == p
  {
    NoSlash(p, |p|);
  }

  lemma CrossingFaces()
    ensures FaceOf(Crossing(), HOST_NAME) == Some(Host) && FaceOf(Crossing(), "p") == Some(Client)
  {
    var repo := Crossing();
    PlainBasename(HOST_NAME);
    PlainBasename("p");
    PlainBasename("c");
    assert |HOST_NAME| == 18 && |CLIENT_NAME| == 20;
    assert NamedFace(repo, "p").None? && NamedFace(repo, "c") == Some(Client);
    assert FaceFrom(repo, "c", {} + {"p"}) == Some(Client);
  }

  lemma CrossingRoots()
    ensures SplitRootOf(Crossing(), "p").None? && SplitRootOf(Crossing(), Leaf("q", Client)) == Some("q")
  {
    SplitRootIsInnermost(Crossing(), "p");
    SplitRootIsInnermost(Crossing(), Leaf("q", Client));
    assert |"q" + "/"| == 2 && "q" + "/" <= Leaf("q", Client);
  }

  lemma CrossingConforms(v: Violation)
    ensures !WrongEdge(Crossing(), v)
  {
    CrossingFaces();
    CrossingRoots();
  }

  /** Every reference conforms, and yet the Host aggregate's traversal enters `q` through its Client leaf. */
  lemma CleanReportCrossesFaces()
    ensures var repo := Crossing();
            && FaceOf(repo, HOST_NAME) == Some(Host) && Reachable(AnyEdge(repo), HOST_NAME, "p")
            && (forall v: Violation :: !WrongEdge(repo, v)) && !EntersThrough(repo, "p", Host)
  {
    var repo := Crossing();
    CrossingFaces();
    forall v: Violation
      ensures !WrongEdge(repo, v)
    {
      CrossingConforms(v);
    }
    ReachesItself(AnyEdge(repo), HOST_NAME);
    ReachesFurther(AnyEdge(repo), HOST_NAME, HOST_NAME, "p");
    CrossingEnters();
  }

  lemma CrossingEnters()
    ensures !EntersThrough(Crossing(), "p", Host)
  {
    CrossingRoots();
    assert |Leaf("q", Client)| != |Leaf("q", Host)|;
    assert Crossing().configs["p"].references[0] == Leaf("q", Client);
  }

  // ------------------------------------------------------- names and directories

  /** The last part of the path is the name. */
  ghost predicate IsNamed(p: Path, name: string) {
    p == name || exists dir :: p == dir + "/" + name
  }

  lemma {:induction false} LastSlashMeans(p: Path, i: nat)
    requires i <= |p|
    ensures var k := LastSlash(p, i); -1 <= k < i && (k >= 0 ==> p[k] == '/') && forall j :: k < j < i ==> p[j] != '/'
  {
    if i > 0 && p[i - 1] != '/' {
      LastSlashMeans(p, i - 1);
    }
  }

  lemma BasenameMeans(p: Path, name: string)
    requires '/' !in name
    ensures Basename(p) == name <==> IsNamed(p, name)
  {
    var k := LastSlash(p, |p|);
    LastSlashMeans(p, |p|);
    if Basename(p) == name {
      assert k >= 0 ==> p == p[..k] + "/" + name;
    }
    if dir :| p == dir + "/" + name {
      assert p[|dir|] == '/';
      assert forall j :: |dir| < j < |p| ==> p[j] == name[j - |dir| - 1];
      assert p[|dir| + 1..] == name;
    }
  }

  /** A config's own name or, failing that, its being a base config, gives its face. */
  lemma NamedFaceMeans(repo: Repo, p: Path)
    ensures NamedFace(repo, p) == Some(Host) <==>
              IsNamed(p, "tsconfig.host.json") || (!IsNamed(p, "tsconfig.client.json") && p == repo.hostBase)
    ensures NamedFace(repo, p) == Some(Client) <==>
              !IsNamed(p, "tsconfig.host.json") && (IsNamed(p, "tsconfig.client.json") || (p != repo.hostBase && p == repo.clientBase))
  {
    BasenameMeans(p, "tsconfig.host.json");
    BasenameMeans(p, "tsconfig.client.json");
    NamesDiffer(p);
  }

  lemma NamesDiffer(p: Path)
    ensures !(Basename(p) == "tsconfig.host.json" && Basename(p) == "tsconfig.client.json")
  {
    assert |"tsconfig.host.json"| == 18 && |"tsconfig.client.json"| == 20;
  }

  /** The leaf of a face has that face. */
  lemma LeafHasFace(repo: Repo, root: Path, f: Face)
    ensures Leaf(root, Host) == root + "/" + "tsconfig.host.json" && Leaf(root, Client) == root + "/" + "tsconfig.client.json"
    ensures NamedFace(repo, Leaf(root, f)) == Some(f)
  {
    BasenameMeans(Leaf(root, f), "tsconfig.host.json");
    BasenameMeans(Leaf(root, f), "tsconfig.client.json");
    NamesDiffer(Leaf(root, f));
  }

  /** The path is the directory, or leaves it when it is cut at one of its slashes. */
  ghost predicate Within(dir: Path, p: Path) {
    p == dir || exists i :: 0 <= i < |p| && p[i] == '/' && p[..i] == dir
  }

  lemma ContainsMeans(dir: Path, p: Path)
    ensures Contains(dir, p) <==> Within(dir, p)
  {
    var n := |dir|;
    if dir + "/" <= p {
      assert p[n] == (dir + "/")[n] && p[..n] == (dir + "/")[..n];
    }
    if i :| 0 <= i < |p| && p[i] == '/' && p[..i] == dir {
      assert p[..i + 1] == dir + "/";
    }
  }

  /** The path lies in the project directory, and so does no other project directory around it that is not around this one. */
  ghost predicate IsInnermost(repo: Repo, root: Path, p: Path) {
    root in repo.projectDirs && Within(root, p) && forall d :: d in repo.projectDirs && Within(d, p) ==> Within(d, root)
  }

  lemma SplitRootMeans(repo: Repo, p: Path, root: Path)
    ensures SplitRootOf(repo, p) == Some(root) <==> IsInnermost(repo, root, p)
  {
    SplitRootIsInnermost(repo, p);
    forall d, q
      ensures Contains(d, q) <==> Within(d, q)
    {
      ContainsMeans(d, q);
    }
    if IsInnermost(repo, root, p) {
      var found := SplitRootOf(repo, p).value;
      assert Within(found, root) && Within(root, found);
      assert |found| == |root|;
    }
  }

  /**
   * A reference into a split project is wrong unless it names, by face of the
   * referring config, `tsconfig.host.json` or `tsconfig.client.json` of the
   * innermost split root; any other reference is right.
   */
  lemma WrongEdgeMeans(repo: Repo, c: Path, i: nat, root: Path)
    requires c in repo.configs && i < |repo.configs[c].references| && IsInnermost(repo, root, repo.configs[c].references[i])
    ensures WrongEdge(repo, Violation(c, i)) <==>
              match FaceOf(repo, c)
              case None => true
              case Some(Host) => repo.configs[c].references[i] != root + "/" + "tsconfig.host.json"
              case Some(Client) => repo.configs[c].references[i] != root + "/" + "tsconfig.client.json"
  {
    SplitRootMeans(repo, repo.configs[c].references[i], root);
    LeafHasFace(repo, root, Host);
  }

  lemma OutsideReferenceIsRight(repo: Repo, c: Path, i: nat)
    requires c in repo.configs && i < |repo.configs[c].references| && forall d :: d in repo.projectDirs ==> !Within(d, repo.configs[c].references[i])
    ensures !WrongEdge(repo, Violation(c, i))
  {
    var target := repo.configs[c].references[i];
    SplitRootIsInnermost(repo, target);
    if SplitRootOf(repo, target).Some? {
      ContainsMeans(SplitRootOf(repo, target).value, target);
    }
  }
}
